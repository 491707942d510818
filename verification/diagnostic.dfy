/**
 * The content diagnostic of one results mapping: how many journals have an
 * id once ids are extracted from their URLs, which titles occur more than
 * once, and which journals collide once titles are lower-cased and folded
 * to ASCII.
 */
module Diagnostic {
  import opened Wrappers
  import opened Records
  import opened Text
  import opened UrlId
  import opened TitleKey
  import opened MapLoops
  import opened Grouping

  /** The outcome of one analysis. The source returns the sizes of the two
      maps; the model keeps the maps themselves. */
  datatype Report = Report(
    total: nat,
    found: nat,
    missing: nat,
    duplicatedTitles: map<string, nat>,
    normalizedDuplicates: map<string, set<string>>)

  /** The record carries a truthy id. */
  predicate HasId(e: Record) {
    Truthy(e.id)
  }

  /** The title a record is counted under: only truthy titles count. */
  function TitleOf(e: Record): Option<string> {
    if Truthy(e.title) then e.title else None
  }

  /** The folded key a record is grouped under, for truthy titles only. */
  function WeakKeyOf(e: Record): Option<string> {
    if Truthy(e.title) then Some(WeakKey(e.title.value)) else None
  }

  /** Journals that have an id after extraction. */
  function Found(data: Journal): set<string> {
    set k | k in data && HasId(ExtractId(data[k]))
  }

  /** Journals whose record has exactly the title `t`. */
  function SameTitle(data: Journal, t: string): set<string> {
    Group(data, TitleOf, t)
  }

  /** Journals whose title folds to `n`. */
  function SameWeakKey(data: Journal, n: string): set<string> {
    Group(data, WeakKeyOf, n)
  }

  /** `analyze_json_content` on an already loaded mapping, without the
      printing: ids are extracted first, the found journals are counted,
      and the titles and folded titles seen more than once are reported
      with their count and their journals. */
  method Analyze(data: Journal) returns (r: Report)
    ensures r.total == |data|
    ensures r.found == |Found(data)| && r.found <= r.total
    ensures r.missing == r.total - r.found
    ensures forall t :: t in r.duplicatedTitles <==> |SameTitle(data, t)| > 1
    ensures forall t | t in r.duplicatedTitles :: r.duplicatedTitles[t] == |SameTitle(data, t)|
    ensures forall n :: n in r.normalizedDuplicates <==> |SameWeakKey(data, n)| > 1
    ensures forall n | n in r.normalizedDuplicates :: r.normalizedDuplicates[n] == SameWeakKey(data, n)
  {
    var found := CountFound(data);
    var duplicated := Duplicates(data, TitleOf);
    var folded := GroupBy(data, WeakKeyOf);
    var normalized := map n | n in folded && |folded[n]| > 1 :: folded[n];
    r := Report(|data|, found, |data| - found, duplicated, normalized);
  }

  /** The found counter: the extraction loop, then the count of journals
      with an id. */
  method CountFound(data: Journal) returns (found: nat)
    ensures found == |Found(data)| && found <= |data|
  {
    var extracted := ExtractIds(data);
    found := CountWhere(extracted, HasId);
    SameMembers(KeysWhere(extracted, HasId), Found(data));
    SubsetSize(Found(data), data.Keys);
  }

  /** The exact-title counter, filtered to the titles seen more than once. */
  method Duplicates(data: Journal, key: Record -> Option<string>) returns (counts: map<string, nat>)
    ensures forall t :: t in counts <==> |Group(data, key, t)| > 1
    ensures forall t | t in counts :: counts[t] == |Group(data, key, t)|
  {
    var groups := GroupBy(data, key);
    counts := map t | t in groups && |groups[t]| > 1 :: |groups[t]|;
  }

  /** Only non-empty titles are ever reported as duplicated. */
  lemma DuplicatedTitlesAreTruthy(data: Journal, t: string)
    requires |SameTitle(data, t)| > 1
    ensures t != ""
  {
    var k :| k in SameTitle(data, t);
  }

  /** Journals sharing an exact title share its folded key, so every exact
      duplicate is also a folded duplicate, with at least as many journals. */
  lemma ExactDuplicateIsFolded(data: Journal, t: string)
    requires |SameTitle(data, t)| > 1
    ensures SameTitle(data, t) <= SameWeakKey(data, WeakKey(t))
    ensures |SameWeakKey(data, WeakKey(t))| > 1
  {
    SubsetSize(SameTitle(data, t), SameWeakKey(data, WeakKey(t)));
  }

  /** A journal that already had an id keeps one, and one whose URL matches
      the id pattern gains one: both are found. */
  lemma FoundJournals(data: Journal, k: string)
    requires k in data
    ensures HasId(data[k]) ==> k in Found(data)
    ensures Truthy(data[k].url) && SearchId(data[k].url.value).Some? ==> k in Found(data)
  {
  }

  /** Titles that differ only in letter case fall in one folded group. */
  lemma CaseVariantsGroupTogether(data: Journal, a: string, b: string)
    requires a in data && b in data
    requires Truthy(data[a].title) && Truthy(data[b].title)
    requires LowerStr(data[a].title.value) == LowerStr(data[b].title.value)
    ensures a in SameWeakKey(data, WeakKey(data[a].title.value))
    ensures b in SameWeakKey(data, WeakKey(data[a].title.value))
  {
  }
}
