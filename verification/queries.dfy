/**
 * The lookups the web pages make on the built directory: the sorted list of
 * all areas or catalogues, the journals of one area or catalogue, the
 * journals by initial, the substring search and the single-journal page.
 */
module Queries {
  import opened Text
  import opened Sorting
  import opened Records

  /** Every value of field `f` over the whole directory. */
  function AllValues(d: Journal, f: Field): set<string> {
    set t, x | t in d && x in Values(d[t], f) :: x
  }

  /** The `/areas` and `/catalogos` listings: the union of field `f` over
      every journal, then `sorted`. */
  method DistinctSorted(d: Journal, f: Field) returns (r: seq<string>)
    ensures StrictlySorted(r)
    ensures forall x :: x in r <==> x in AllValues(d, f)
  {
    r := [];
    var done: Journal := map[];
    var rest := d.Keys;
    while rest != {}
      invariant rest <= d.Keys
      invariant forall t :: t in done <==> t in d && t !in rest
      invariant forall t | t in done :: done[t] == d[t]
      invariant StrictlySorted(r)
      invariant forall x :: x in r <==> x in AllValues(done, f)
      decreases |rest|
    {
      var t :| t in rest;
      AllValuesAdd(done, f, t, d[t]);
      r := InsertAll(r, Values(d[t], f));
      done := done[t := d[t]];
      rest := rest - {t};
    }
    assert done == d;
  }

  /** Adding one journal adds its values. */
  lemma AllValuesAdd(d: Journal, f: Field, t: string, e: Record)
    requires t !in d
    ensures forall x :: x in AllValues(d[t := e], f) <==> x in AllValues(d, f) || x in Values(e, f)
  {
    forall x | x in AllValues(d[t := e], f)
      ensures x in AllValues(d, f) || x in Values(e, f)
    {
      var u :| u in d[t := e] && x in Values(d[t := e][u], f);
    }
    forall x | x in AllValues(d, f) || x in Values(e, f)
      ensures x in AllValues(d[t := e], f)
    {
      if x in Values(e, f) {
        assert t in d[t := e] && x in Values(d[t := e][t], f);
      } else {
        var u :| u in d && x in Values(d[u], f);
        assert u in d[t := e] && x in Values(d[t := e][u], f);
      }
    }
  }

  /** The listing is the one sorted, duplicate-free sequence of the values. */
  lemma DistinctSortedUnique(d: Journal, f: Field, a: seq<string>, b: seq<string>)
    requires StrictlySorted(a) && forall x :: x in a <==> x in AllValues(d, f)
    requires StrictlySorted(b) && forall x :: x in b <==> x in AllValues(d, f)
    ensures a == b
  {
    StrictlySortedUnique(a, b);
  }

  /** `area_detalle` and `catalogo_detalle`: the journals whose field `f`
      lists `v`, with their records. */
  function FilterBy(d: Journal, f: Field, v: string): (r: Journal)
    ensures r.Keys <= d.Keys
    ensures forall t | t in r :: r[t] == d[t] && v in Values(d[t], f)
    ensures forall t | t in d && v in Values(d[t], f) :: t in r
  {
    map t | t in d && v in Values(d[t], f) :: d[t]
  }

  /** A value has a non-empty page exactly when the listing shows it. */
  lemma FilterByListed(d: Journal, f: Field, v: string)
    ensures FilterBy(d, f, v) != map[] <==> v in AllValues(d, f)
  {
    if v in AllValues(d, f) {
      var t :| t in d && v in Values(d[t], f);
      assert t in FilterBy(d, f, v);
    }
    if FilterBy(d, f, v) != map[] {
      var t :| t in FilterBy(d, f, v);
    }
  }

  /** Filtering twice by the same value changes nothing, and filters by
      two values commute. */
  lemma FilterByIdempotent(d: Journal, f: Field, v: string, w: string)
    ensures FilterBy(FilterBy(d, f, v), f, v) == FilterBy(d, f, v)
    ensures FilterBy(FilterBy(d, f, v), f, w) == FilterBy(FilterBy(d, f, w), f, v)
  {
  }

  /** `explorar_letra`: the journals whose lower-cased title starts with
      the lower-cased prefix. */
  function ExploreLetter(d: Journal, letter: string): (r: Journal)
    ensures r.Keys <= d.Keys
    ensures forall t | t in r :: r[t] == d[t]
    ensures forall t | t in d :: t in r <==> OccursAt(LowerStr(t), LowerStr(letter), 0)
  {
    map t | t in d && LowerStr(letter) <= LowerStr(t) :: d[t]
  }

  /** The empty prefix selects every journal; prefixes that agree once
      lower-cased select the same journals. */
  lemma ExploreLetterCases(d: Journal, a: string, b: string)
    ensures ExploreLetter(d, "") == d
    ensures LowerStr(a) == LowerStr(b) ==> ExploreLetter(d, a) == ExploreLetter(d, b)
  {
  }

  /** On a directory whose titles have no upper case, as the builder makes
      them, the title is compared as it stands. */
  lemma ExploreLetterLowerKeys(d: Journal, letter: string, t: string)
    requires t in d && HasNoUpper(t)
    ensures t in ExploreLetter(d, letter) <==> LowerStr(letter) <= t
  {
    LowerStrFixed(t);
  }

  /** `buscar`: an empty query finds nothing; otherwise the journals whose
      lower-cased title contains the lower-cased query. */
  function Search(d: Journal, q: string): (r: Journal)
    ensures r.Keys <= d.Keys
    ensures forall t | t in r :: r[t] == d[t]
    ensures q == "" ==> r == map[]
    ensures q != "" ==> forall t | t in d :: t in r <==> exists i :: OccursAt(LowerStr(t), LowerStr(q), i)
  {
    var query := LowerStr(q);
    if query == "" then map[]
    else map t | t in d && Contains(LowerStr(t), query) :: d[t]
  }

  /** A non-empty prefix is also a substring: the journals of an initial
      are among the search results for it. */
  lemma ExploreWithinSearch(d: Journal, s: string)
    requires s != ""
    ensures ExploreLetter(d, s).Keys <= Search(d, s).Keys
  {
    forall t | t in ExploreLetter(d, s)
      ensures t in Search(d, s)
    {
      assert OccursAt(LowerStr(t), LowerStr(s), 0);
    }
  }

  /** Lengthening a query can only narrow the results. */
  lemma SearchNarrows(d: Journal, q: string, more: string)
    requires q != ""
    ensures Search(d, q + more).Keys <= Search(d, q).Keys
  {
    var lq, lm := LowerStr(q), LowerStr(more);
    assert LowerStr(q + more) == lq + lm;
    forall t | t in Search(d, q + more)
      ensures t in Search(d, q)
    {
      var i :| OccursAt(LowerStr(t), lq + lm, i);
      assert LowerStr(t)[i..i + |lq|] == (lq + lm)[..|lq|];
      assert OccursAt(LowerStr(t), lq, i);
    }
  }

  /** `revista_detalle`: the record of a title, or the empty record when
      the directory does not know it. */
  function Lookup(d: Journal, t: string): (r: Record)
    ensures t in d ==> r == d[t]
    ensures t !in d ==> r == EmptyRecord
  {
    if t in d then d[t] else EmptyRecord
  }

  /** Every page that lists a journal links to its own record: a journal
      found by any filter looks up to the record the filter showed. */
  lemma LookupAgreesWithFilters(d: Journal, f: Field, v: string, t: string)
    ensures t in FilterBy(d, f, v) ==> Lookup(d, t) == FilterBy(d, f, v)[t]
    ensures t in Search(d, v) ==> Lookup(d, t) == Search(d, v)[t]
    ensures t in ExploreLetter(d, v) ==> Lookup(d, t) == ExploreLetter(d, v)[t]
  {
  }

  /** On a directory whose titles have no upper case, a title with an
      upper-case letter finds nothing. */
  lemma LookupNeedsLowerCase(d: Journal, t: string)
    requires forall u | u in d :: HasNoUpper(u)
    requires !HasNoUpper(t)
    ensures Lookup(d, t) == EmptyRecord
  {
  }
}
