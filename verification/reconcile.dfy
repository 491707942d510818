/**
 * The record reconciler: the quality comparator, the merge of two records
 * for one title and the merge of two title-keyed mappings with its counters.
 */
module Reconcile {
  import opened Records
  import opened Seqs
  import opened UrlId
  import opened MapLoops

  /** The comparator's answer: 0, 1 or 2 in the source. */
  datatype Preference = Equivalent | FirstBetter | SecondBetter

  function Flip(p: Preference): Preference {
    match p
    case Equivalent => Equivalent
    case FirstBetter => SecondBetter
    case SecondBetter => FirstBetter
  }

  /** How much higher a similarity must be to count as better. */
  const SimilarityMargin: real := 0.05

  /** Rule 1: the record knows both its id and its URL. */
  predicate HasIdAndUrl(e: Record) {
    Truthy(e.id) && Truthy(e.url)
  }

  /** Rule 3 reads a missing similarity as 0. */
  function Similarity(e: Record): real {
    e.similarity.GetOr(0.0)
  }

  /** `is_better_match`: the first rule that separates the two records
      decides; when none does, neither is better. */
  function IsBetterMatch(e1: Record, e2: Record): (r: Preference)
    // rule 1: id and URL
    ensures HasIdAndUrl(e1) && !HasIdAndUrl(e2) ==> r == FirstBetter
    ensures !HasIdAndUrl(e1) && HasIdAndUrl(e2) ==> r == SecondBetter
    // rule 2: a title, once rule 1 ties
    ensures HasIdAndUrl(e1) == HasIdAndUrl(e2) && Truthy(e1.title) && !Truthy(e2.title) ==> r == FirstBetter
    ensures HasIdAndUrl(e1) == HasIdAndUrl(e2) && !Truthy(e1.title) && Truthy(e2.title) ==> r == SecondBetter
    // rule 3: similarity by more than the margin, once rules 1 and 2 tie
    ensures HasIdAndUrl(e1) == HasIdAndUrl(e2) && Truthy(e1.title) == Truthy(e2.title) ==>
              && (r == FirstBetter <==> Similarity(e1) > Similarity(e2) + SimilarityMargin)
              && (r == SecondBetter <==> Similarity(e2) > Similarity(e1) + SimilarityMargin)
  {
    if HasIdAndUrl(e1) && !HasIdAndUrl(e2) then FirstBetter
    else if !HasIdAndUrl(e1) && HasIdAndUrl(e2) then SecondBetter
    else if Truthy(e1.title) && !Truthy(e2.title) then FirstBetter
    else if !Truthy(e1.title) && Truthy(e2.title) then SecondBetter
    else if Similarity(e1) > Similarity(e2) + SimilarityMargin then FirstBetter
    else if Similarity(e2) > Similarity(e1) + SimilarityMargin then SecondBetter
    else Equivalent
  }

  /** Swapping the arguments swaps the answer: the first is better exactly
      when, swapped, the second is; "neither" is symmetric. */
  lemma IsBetterMatchAntisymmetric(a: Record, b: Record)
    ensures IsBetterMatch(b, a) == Flip(IsBetterMatch(a, b))
    ensures IsBetterMatch(a, b) == FirstBetter <==> IsBetterMatch(b, a) == SecondBetter
    ensures IsBetterMatch(a, b) == Equivalent <==> IsBetterMatch(b, a) == Equivalent
  {
  }

  /** Neither record is better exactly when all three rules tie. */
  lemma IsBetterMatchEquivalent(a: Record, b: Record)
    ensures IsBetterMatch(a, b) == Equivalent <==>
              && HasIdAndUrl(a) == HasIdAndUrl(b)
              && Truthy(a.title) == Truthy(b.title)
              && Similarity(a) <= Similarity(b) + SimilarityMargin
              && Similarity(b) <= Similarity(a) + SimilarityMargin
  {
  }

  /** Two records for one title disagree when their ids or titles differ. */
  predicate Conflict(e1: Record, e2: Record) {
    e1.id != e2.id || e1.title != e2.title
  }

  /** The scalar fields of `r` are those of `e`. */
  predicate SameScalars(r: Record, e: Record) {
    r.title == e.title && r.id == e.id && r.url == e.url && r.similarity == e.similarity
  }

  /** `merge_metadata`: the scalar fields come from the better record (the
      first one on a tie), and both list fields become the duplicate-free
      union of the two records' lists. */
  function MergeMetadata(e1: Record, e2: Record): (r: Record)
    ensures IsBetterMatch(e1, e2) == SecondBetter ==> SameScalars(r, e2)
    ensures IsBetterMatch(e1, e2) != SecondBetter ==> SameScalars(r, e1)
    ensures NoDup(r.areas) && NoDup(r.catalogos)
    ensures forall a :: a in r.areas <==> a in e1.areas || a in e2.areas
    ensures forall c :: c in r.catalogos <==> c in e1.catalogos || c in e2.catalogos
  {
    var base := if IsBetterMatch(e1, e2) != SecondBetter then e1 else e2;
    base.(areas := Dedup(e1.areas + e2.areas), catalogos := Dedup(e1.catalogos + e2.catalogos))
  }

  /** The merge is commutative in its lists, and in its scalar fields too
      unless the comparator ties, in which case each order keeps its own
      first record. */
  lemma MergeMetadataOrder(a: Record, b: Record)
    ensures forall x :: x in MergeMetadata(a, b).areas <==> x in MergeMetadata(b, a).areas
    ensures forall x :: x in MergeMetadata(a, b).catalogos <==> x in MergeMetadata(b, a).catalogos
    ensures IsBetterMatch(a, b) != Equivalent ==> SameScalars(MergeMetadata(a, b), MergeMetadata(b, a))
    ensures IsBetterMatch(a, b) == Equivalent ==>
              SameScalars(MergeMetadata(a, b), a) && SameScalars(MergeMetadata(b, a), b)
  {
    IsBetterMatchAntisymmetric(a, b);
  }

  /** The counters of one run. */
  datatype Stats = Stats(
    totalCombined: nat,
    conflicts: nat,
    conflictResolution: nat,
    addedFromFile1: nat,
    addedFromFile2: nat,
    betterMatches: nat)

  /** The comparator prefers one of the two records. */
  predicate Decided(e1: Record, e2: Record) {
    IsBetterMatch(e1, e2) != Equivalent
  }

  /** Titles of both mappings whose records disagree. */
  function ConflictKeys(r1: Journal, r2: Journal): set<string> {
    SharedWhere(r1, r2, Conflict)
  }

  /** Conflicting titles where the comparator prefers one record. */
  function ResolvedKeys(r1: Journal, r2: Journal): set<string> {
    SharedWhere(r1, r2, Both(Conflict, Decided))
  }

  /** `combine_results` on a fresh combiner, without the file I/O: ids are
      extracted from both mappings, titles are matched on their exact raw
      spelling, every shared title gets the merged record, the others are
      copied, and the counters are kept as the source keeps them. */
  method CombineResults(file1: Journal, file2: Journal) returns (combined: Journal, stats: Stats)
    ensures combined.Keys == file1.Keys + file2.Keys
    ensures forall k | k in file1 && k !in file2 :: combined[k] == ExtractId(file1[k])
    ensures forall k | k in file2 && k !in file1 :: combined[k] == ExtractId(file2[k])
    ensures forall k | k in file1 && k in file2 ::
              combined[k] == MergeMetadata(ExtractId(file1[k]), ExtractId(file2[k]))
    ensures stats.addedFromFile1 == |file1.Keys - file2.Keys|
    ensures stats.addedFromFile2 == |file2.Keys - file1.Keys|
    ensures stats.totalCombined == |combined|
    ensures stats.totalCombined == stats.addedFromFile1 + stats.addedFromFile2 + |file1.Keys * file2.Keys|
    ensures stats.conflicts == |ConflictKeys(ExtractIds(file1), ExtractIds(file2))|
    ensures stats.conflictResolution == stats.betterMatches
    ensures stats.betterMatches == |ResolvedKeys(ExtractIds(file1), ExtractIds(file2))|
    ensures stats.betterMatches <= stats.conflicts <= |file1.Keys * file2.Keys|
  {
    var results1 := ExtractIds(file1);
    var results2 := ExtractIds(file2);
    var conflicts, resolved, added1, added2;
    combined, conflicts, resolved, added1 := MergeFirst(results1, results2, MergeMetadata, Conflict, Decided);
    combined, added2 := CopyMissing(combined, results2);
    UnionSize(results1.Keys, results2.Keys);
    SharedWhereBoth(results1, results2, Conflict, Decided);
    SubsetSize(ResolvedKeys(results1, results2), ConflictKeys(results1, results2));
    SubsetSize(ConflictKeys(results1, results2), results1.Keys * results2.Keys);
    stats := Stats(|combined|, conflicts, resolved, added1, added2, resolved);
  }
}
