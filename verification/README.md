# Journal directory: reconciliation, building and queries

A Dafny model of the data logic behind a directory of scientific journals.
The directory maps each journal title to a record with:
- an optional title, id, URL and similarity score;
- the list of subject areas (`areas`) it belongs to;
- the list of catalogues (`catalogos`) it belongs to.

Three programs work on it:

- **The result combiner** (`utils/combine_results.py`) merges two scraped title→record mappings. It includes:
  - the title normaliser `normalize_title`;
  - extraction of the journal id from the lookup URL with the pattern `[?&]q=(\d+)&`;
  - the three-rule quality comparator `is_better_match`;
  - `merge_metadata`;
  - the merge loop with its six counters;
  - the counting and grouping part of the content diagnostic `analyze_json_content`.
- **The directory builder** (`utils/generar_json_revistas.py`) reads the one-column exported title lists of every area and catalogue. It drops the `TITULO:` header cells, cleans titles and file names, and folds the rows into `title → {areas, catalogos}`. Each list holds no duplicates and keeps first-seen order.
- **The web pages** (`app.py`) filter the built directory:
  - the sorted list of distinct areas or catalogues;
  - the journals of one area or catalogue;
  - journals by title prefix;
  - case-insensitive substring search (empty query, empty result);
  - single-journal lookup, which falls back to the empty record.

Modules follow that structure:

| file | module | what it holds |
|---|---|---|
| wrappers.dfy | `Wrappers` | `Option`, for JSON fields that may be missing |
| records.dfy | `Records` | `Record`, `Journal = map<string, Record>`, Python truthiness of a field |
| text.dfy | `Text` | Python's `isspace`, `lower`, `strip`, the ASCII fold, `re.sub(r'\s+', ' ', …)`, `in` on strings, `replace(p, '')` |
| seqs.dfy | `Seqs` | duplicate-free lists built in first-seen order |
| sorting.dfy | `Sorting` | Python's string order and `sorted(set(…))` |
| title_key.dfy | `TitleKey` | `normalize_title` and the diagnostic's weaker key |
| url_id.dfy | `UrlId` | the id pattern, leftmost-match search, and the id extraction step |
| map_loops.dfy | `MapLoops` | the two loops of the merge, over maps of any type |
| reconcile.dfy | `Reconcile` | the comparator, `merge_metadata`, `combine_results` |
| grouping.dfy | `Grouping` | counting and grouping map entries |
| diagnostic.dfy | `Diagnostic` | `analyze_json_content` |
| collect.dfy | `Collect` | values of table rows collected per key |
| builder.dfy | `Builder` | `limpiar_titulo`, `limpiar_nombre_area`, the header filter, the aggregation loop |
| queries.dfy | `Queries` | the filters of the web routes |

Behaviour of the code that the model keeps, including where a reader might expect otherwise:
- The merge matches titles on their exact raw spelling. `normalize_title` is computed at `utils/combine_results.py:125` but never used.
- The duplicate diagnostic does not group by `normalize_title`. It groups by a weaker key that only lower-cases and ASCII-folds (`TitleKey.WeakKey`), and it groups journal names under that key.
- All three title keys lower-case *before* they fold to ASCII. A capital that has no lower-case form but decomposes to an ASCII capital, such as the mathematical bold "𝐀" (U+1D400) or the double-struck "ℍ" (U+210D), therefore reaches the key as "A" or "H". Lower case and the idempotence of `normalize_title` are thus guaranteed only for Latin-1 titles (`TitleKey.NormalizeTitleMathBold`, `Builder.CleanTitleMathBold`).
- `limpiar_titulo` lower-cases and strips *before* it folds to ASCII. A non-whitespace character that folds to a space at either end therefore leaves a space there. For example, a title ending in a spacing acute accent U+00B4 cleans to a key with a trailing space, and cleaning that key again removes the space (`Builder.CleanTitleTrailingSpace`). Cleaning is idempotent on ASCII titles.
- Extraction only ever sets `id` and never clears it. The pattern needs an `&` after the digits.

## Model

| member | source | states |
|---|---|---|
| TitleKey.NormalizeTitle | utils/combine_results.py:25-33 | a missing or empty title gives ""; every other key consists of ASCII word characters separated by single spaces, with no space at either end; the key of a Latin-1 title has no upper-case letter |
| TitleKey.CanonicalKeyFixed | utils/combine_results.py:27-32 | a lower-case string already in key shape is its own key |
| TitleKey.NormalizeTitleIdempotent | utils/combine_results.py:29-32 | for Latin-1 titles, normalising the key again gives the same key |
| TitleKey.NormalizeTitleKeepsWordChars | utils/combine_results.py:31-31 | every word character of the title, `_` and digits included, survives lower-cased into the key |
| TitleKey.NormalizeTitleFoldInvariant | utils/combine_results.py:29-30 | titles that agree once lower-cased, stripped and folded get the same key, so case and accents do not matter |
| TitleKey.NormalizeTitleCaseInsensitive | utils/combine_results.py:27-29 | a non-empty title and its lower-cased form get the same key |
| TitleKey.NormalizeTitleAccentExample | utils/combine_results.py:29-30 | "Ciência" and "ciencia" both have the key "ciencia" |
| TitleKey.NormalizeTitleMathBold | utils/combine_results.py:29-32 | the mathematical bold capital A has the key "A", whose own key is "a": beyond Latin-1 a key can hold capitals and normalising is not idempotent |
| TitleKey.PunctToSpace | utils/combine_results.py:31-31 | each character that is neither a word character nor whitespace becomes one space; every other character is kept |
| TitleKey.WeakKey | utils/combine_results.py:220-220 | the diagnostic key is ASCII, has no upper-case letter when the title is Latin-1, and on ASCII titles is just the lower-cased title |
| TitleKey.WeakKeyCaseInsensitive | utils/combine_results.py:220-220 | a title and its lower-cased form get the same diagnostic key |
| Text.LowerStr | utils/combine_results.py:29-29 | `lower()` on ASCII and Latin-1 text: it keeps the length, maps each character to its lower-case form, and leaves no ASCII or Latin-1 upper-case letter |
| Text.Lower | utils/combine_results.py:29-29 | one character's `lower()` on ASCII and Latin-1: the result is no ASCII or Latin-1 upper-case letter, it changes the input exactly when the input is an ASCII or Latin-1 upper-case letter, and ASCII, Latin-1, whitespace and word characters stay so |
| Text.IsSpace | utils/combine_results.py:29-29 | the characters `str.isspace` accepts, which `strip()` cuts and `\s` matches |
| Text.FoldChar | utils/combine_results.py:30-30 | the ASCII fold of one character is ASCII (at most two characters for a Latin-1 character), leaves ASCII alone, introduces no upper case for a Latin-1 character that is not upper-case, and turns a bold or double-struck capital into an upper-case ASCII letter |
| Text.Fold | utils/combine_results.py:30-30 | NFKD followed by dropping non-ASCII, character by character, on a whole string |
| Text.BoldCapitalFolds | utils/combine_results.py:29-30 | the mathematical bold capital A survives `lower()` and `strip()` and folds to "A" |
| Text.FoldOfAscii | utils/combine_results.py:30-30 | the fold is the identity on ASCII strings |
| Text.FoldIsAscii | utils/combine_results.py:30-30 | the fold always yields ASCII |
| Text.FoldAppend | utils/combine_results.py:30-30 | the fold works character by character, so it distributes over concatenation |
| Text.Strip | utils/combine_results.py:29-29 | `strip()` yields a slice of the input with no whitespace at either end |
| Text.StripKeeps | utils/combine_results.py:29-29 | `strip()` keeps every character that is not whitespace |
| Text.CollapseSpaces | utils/combine_results.py:32-32 | the result is empty exactly when the input is, and it opens with a space exactly when the input opens with whitespace |
| Text.CollapseSpacesSingle | utils/combine_results.py:32-32 | after collapsing, no whitespace character is ever followed by another |
| Text.CollapseSpacesFixed | utils/combine_results.py:32-32 | a string that is already single-spaced is left unchanged |
| UrlId.SearchId | utils/combine_results.py:119-119 | a result is the capture of the leftmost match of `[?&]q=(\d+)&`; no result means the pattern matches nowhere |
| UrlId.MatchesAtCapture | utils/combine_results.py:119-119 | at a matching index the capture is the whole digit run, because a shorter run cannot reach the `&` |
| UrlId.LeftmostUnique | utils/combine_results.py:119-119 | the leftmost match and its capture are unique |
| UrlId.SearchIdLeading | utils/combine_results.py:119-119 | a URL opening with `?q=`, a non-empty run of digits and `&` yields exactly those digits |
| UrlId.SearchIdNeedsAmpersand | utils/combine_results.py:119-119 | a URL without any `&` yields no id, so a URL like `…?q=4231` with no `&` gives none |
| UrlId.ExtractId | utils/combine_results.py:116-121 | only `id` may change; a present id stays present; with a falsy URL or no match the record is unchanged; with a match, `id` becomes the leftmost capture |
| UrlId.ExtractIds | utils/combine_results.py:114-121 | extraction applies to every record and keeps the set of titles |
| UrlId.ExtractIdIdempotent | utils/combine_results.py:116-121 | extracting twice is the same as extracting once |
| Reconcile.IsBetterMatch | utils/combine_results.py:46-75 | rule 1 (id and URL), then rule 2 (a title), then rule 3 (similarity ahead by more than 0.05, a missing score read as 0): the first rule that separates the records decides; otherwise the result is "neither" |
| Reconcile.IsBetterMatchAntisymmetric | utils/combine_results.py:57-75 | swapping the records swaps the answer: the first is better exactly when, swapped, the second is, and "neither" is symmetric |
| Reconcile.IsBetterMatchEquivalent | utils/combine_results.py:57-75 | "neither" is returned exactly when both records tie on rules 1 and 2 and their scores lie within 0.05 of each other |
| Reconcile.MergeMetadata | utils/combine_results.py:77-96 | scalar fields come from the second record exactly when it is better, otherwise from the first; both lists become duplicate-free and hold exactly the union of the two records' lists |
| Reconcile.MergeMetadataOrder | utils/combine_results.py:83-94 | the merged lists do not depend on argument order; the scalar fields do not either, unless the comparator ties, in which case each order keeps its own first record |
| Reconcile.Conflict | utils/combine_results.py:137-138 | two records for one title conflict when their ids or their titles differ, a missing field counting as `None` |
| Reconcile.CombineResults | utils/combine_results.py:98-159 | the result's titles are the union of both inputs' titles; single-source titles keep their extracted record; shared titles get the merged record; the counters count titles only in the first input, titles only in the second, conflicting titles and resolved conflicts, with total = added1 + added2 + shared and resolved = better matches ≤ conflicts ≤ shared |
| MapLoops.MergeFirst | utils/combine_results.py:124-150 | the loop over the first mapping stores every title of it, merged when shared and copied otherwise, and counts the added, conflicting and resolved titles |
| MapLoops.CopyMissing | utils/combine_results.py:153-156 | the loop over the second mapping copies exactly the titles not yet present, leaves present ones alone and counts the copies |
| MapLoops.UnionSize | utils/combine_results.py:159-159 | the size of a union is left-only plus right-only plus shared |
| MapLoops.SubsetSize | utils/combine_results.py:137-145 | a subset is no larger than its superset, so resolved ≤ conflicts ≤ shared |
| Diagnostic.Analyze | utils/combine_results.py:182-254 | total is the number of journals; found counts journals with an id after extraction and never exceeds total; missing is the rest; the duplicated titles are exactly those held by more than one journal, with their counts; the folded-key groups are exactly those with more than one journal, with their journals |
| Diagnostic.CountFound | utils/combine_results.py:193-205 | ids are extracted first, then the journals with a truthy id are counted |
| Records.Truthy | utils/combine_results.py:204-204 | Python truthiness of an optional string field: present and non-empty |
| Diagnostic.Duplicates | utils/combine_results.py:211-226 | the title counter, after filtering, holds exactly the titles of more than one journal, with the number of their journals |
| Diagnostic.ExactDuplicateIsFolded | utils/combine_results.py:211-227 | every exact duplicate title is also a folded duplicate, and its group holds all journals of that title |
| Diagnostic.DuplicatedTitlesAreTruthy | utils/combine_results.py:212-212 | the empty title is never reported |
| Diagnostic.FoundJournals | utils/combine_results.py:196-204 | a journal with an id, or whose URL matches the pattern, counts as found |
| Diagnostic.CaseVariantsGroupTogether | utils/combine_results.py:220-224 | titles that agree once lower-cased fall in the same folded group |
| Grouping.GroupBy | utils/combine_results.py:211-224 | the grouping loop yields exactly the non-empty groups, each with all its journals |
| Grouping.CountWhere | utils/combine_results.py:204-204 | the counting loop counts exactly the entries that satisfy the test |
| Seqs.Dedup | utils/generar_json_revistas.py:149-150 | a list built with "append unless present" has no duplicates and holds exactly the input's elements |
| Seqs.DedupOfNoDup | utils/generar_json_revistas.py:149-150 | on an input without duplicates it keeps the input's order: first-seen order |
| Seqs.DedupFirstSeen | utils/generar_json_revistas.py:149-150 | on any input, duplicates included, an element listed earlier first occurs earlier in the input: first-seen order |
| Seqs.AppendNewSnoc | utils/generar_json_revistas.py:149-150 | one more row is one more "append unless present" step |
| Builder.CleanTitle | utils/generar_json_revistas.py:17-21 | a cleaned title is ASCII, and has no upper-case letter when the title is Latin-1 |
| Builder.CleanTitleOfAscii | utils/generar_json_revistas.py:17-21 | on ASCII titles, cleaning only lower-cases and strips, and cleaning twice is cleaning once |
| Builder.CleanTitleTwice | utils/generar_json_revistas.py:19-20 | cleaning a cleaned title only lower-cases and strips it again, and for a Latin-1 title only strips it |
| Builder.CleanTitleMathBold | utils/generar_json_revistas.py:19-20 | the mathematical bold capital A cleans to "A", which stripping keeps but a second cleaning turns into "a" |
| Builder.CleanTitleTrailingSpace | utils/generar_json_revistas.py:19-20 | a title ending in U+00B4 cleans to a key with a trailing space, which a second cleaning removes |
| Builder.CleanAreaName | utils/generar_json_revistas.py:23-25 | the name never grows; a name containing neither suffix is returned unchanged |
| Builder.CleanAreaNameSpaceSuffix | utils/generar_json_revistas.py:25-25 | in `name + " RadGridExport"` the suffix is cut when it occurs there only at the end and the name does not contain `_RadGridExport`; the result is `name` |
| Builder.CleanAreaNameUnderscoreSuffix | utils/generar_json_revistas.py:25-25 | in `name + "_RadGridExport"` the suffix is cut when it occurs there only at the end and ` RadGridExport` occurs nowhere in it; the result is `name` |
| Builder.CleanAreaNameWithoutR | utils/generar_json_revistas.py:25-25 | a name without a capital R loses exactly its ` RadGridExport` suffix |
| Builder.CleanAreaNameExample | utils/generar_json_revistas.py:25-25 | "Biologia RadGridExport" becomes "Biologia" |
| Text.RemoveAll | utils/generar_json_revistas.py:25-25 | `replace(p, '')` never lengthens, changes the string exactly when it contains `p`, and shortens it exactly then |
| Text.RemoveAllSuffix | utils/generar_json_revistas.py:25-25 | when `p` occurs in `a + p` only at the end, removing it leaves `a` |
| Builder.CellRows | utils/generar_json_revistas.py:48-50 | the rows of one list: its cells in order, the `TITULO:` cells left out, each tagged with the cleaned file name |
| Builder.ReadAll | utils/generar_json_revistas.py:36-80 | `pd.concat` of the rows of every list, file after file |
| Builder.CellRowsMembers | utils/generar_json_revistas.py:48-50 | a list yields as many rows as it has cells other than `TITULO:`, and a row, tagged with the file's cleaned name, for exactly those cells |
| Builder.ReadAllMembers | utils/generar_json_revistas.py:36-80 | the combined table holds exactly the rows of the individual files |
| Builder.AddRows | utils/generar_json_revistas.py:142-150 | one pass adds exactly the cleaned titles of its rows as keys, and extends each title's field with the new values of its rows in row order |
| Builder.AddRow | utils/generar_json_revistas.py:143-150 | one row creates its title's record if missing and appends its value unless already present |
| Builder.ExtendedSnoc | utils/generar_json_revistas.py:146-150 | one more row changes only the record of its own title |
| Builder.PassKeepsOtherField | utils/generar_json_revistas.py:149-162 | the area pass never touches catalogues, and the catalogue pass never touches areas |
| Builder.Build | utils/generar_json_revistas.py:138-162 | the keys are the cleaned titles of all area rows and all catalogue rows; each record lists its areas and its catalogues, each once, in first-seen order |
| Builder.SecondPass | utils/generar_json_revistas.py:153-162 | after the area pass, the catalogue pass completes every entry |
| Builder.TitlesAreClean | utils/generar_json_revistas.py:19-20 | every key the builder files is ASCII, and lower-case when the names of its rows are Latin-1 |
| Builder.TitleListed | utils/generar_json_revistas.py:141-147 | a title is a key exactly when some non-header cell of some list cleans to it |
| Builder.ValueListed | utils/generar_json_revistas.py:141-150 | a value is listed under a title exactly when some non-header cell of a file with that cleaned name cleans to the title |
| Builder.BuildListsSources | utils/generar_json_revistas.py:138-162 | in the built directory, keys are ASCII, and lower-case when every list is Latin-1; lists have no duplicates; an area (or catalogue) is listed under a title exactly when the title appears in that area's (or catalogue's) file |
| Collect.KeysOfMembers | utils/generar_json_revistas.py:146-147 | a key is present exactly when some row has it |
| Collect.ValuesOfMembers | utils/generar_json_revistas.py:149-150 | a value is collected for a key exactly when some row pairs the two |
| Queries.DistinctSorted | app.py:29-32 | the listing is strictly sorted and holds exactly the values of the field over all journals |
| Queries.DistinctSortedUnique | app.py:32-32 | there is only one such listing |
| Sorting.InsertAll | app.py:29-32 | inserting into a sorted list keeps it strictly sorted and adds exactly the inserted values |
| Sorting.StrictlySortedUnique | app.py:32-32 | two strictly sorted lists with the same elements are equal |
| Sorting.StrLess | app.py:32-32 | Python's `<` on strings: code point by code point, a proper prefix first |
| Sorting.StrLessTransitive | app.py:32-32 | Python's string order is transitive |
| Sorting.StrLessTotal | app.py:32-32 | of two different strings, one is less than the other |
| Queries.FilterBy | app.py:38-41 | the result is a sub-map of the directory holding exactly the journals whose field lists the value, with their records unchanged |
| Queries.FilterByListed | app.py:29-41 | a value's page is non-empty exactly when the listing shows that value |
| Queries.FilterByIdempotent | app.py:57-60 | filtering again by the same value changes nothing, and filters by two values commute |
| Queries.ExploreLetter | app.py:71-74 | a sub-map holding exactly the journals whose lower-cased title starts with the lower-cased prefix |
| Queries.ExploreLetterCases | app.py:73-73 | the empty prefix selects everything; prefixes equal once lower-cased select the same journals |
| Queries.ExploreLetterLowerKeys | app.py:73-73 | on a title without upper-case letters, as the builder makes from Latin-1 lists, the title is compared as it stands |
| Queries.Search | app.py:79-88 | an empty query finds nothing; otherwise the result holds exactly the journals whose lower-cased title contains the lower-cased query |
| Queries.ExploreWithinSearch | app.py:71-88 | the journals for a non-empty prefix are among the search results for it |
| Queries.SearchNarrows | app.py:87-87 | lengthening a non-empty query never adds results |
| Text.Contains | app.py:87-87 | `q in t` holds exactly when `q` occurs at some index of `t` |
| Queries.Lookup | app.py:94-94 | the stored record for a known title, the empty record otherwise |
| Queries.LookupAgreesWithFilters | app.py:94-94 | a journal found by any filter looks up to the record the filter showed |
| Queries.LookupNeedsLowerCase | app.py:94-94 | on a directory without upper-case titles, as the builder makes from Latin-1 lists, a title with an upper-case letter finds the empty record |

## Left out

- File and console I/O is not modelled: `load_json` and its error fallback, `json.dump`, directory creation, `print_stats`, the printing in `analyze_json_content`, and the command-line entry points. The operations take and return in-memory values.
- The CSV front end is not modelled: `pd.read_csv`, encoding detection with `chardet`, and the encoding retry loops. A list file is given as its name stem and its cells. A cell that pandas would read as a number or as NaN (and `str()` would render) is out of scope.
- Flask routing, templates, `request.args` and `cargar_datos` are not modelled. The `scimagojr` mapping is only passed through to templates, so it is left out.
- Text.Lower: Python's `lower()` is modelled on ASCII and Latin-1 only. Every other character is left unchanged. Python instead lowers, for instance, the Kelvin sign U+212A to ASCII "k", lowers U+0130 to two code points, and lowers a capital sigma by the final-sigma rule, which looks at its neighbours. So the clauses on ASCII-ness, on fixed points and on "no upper-case letter" hold of Python only on ASCII and Latin-1 input.
- Text.LowerStr: it works character by character and keeps the length. Python's `lower()` does so on ASCII and Latin-1 text, but not in general (U+0130, the final sigma).
- Text.FoldChar: outside Latin-1 the fold table covers only the Unicode spaces, the mathematical bold letters and the double-struck capitals. Other characters with an ASCII compatibility decomposition are dropped, although NFKD gives them an ASCII text: the ligature U+FB03 ("ffi"), U+2121 ("TEL"), U+247D ("(10)"). The contract therefore bounds the length of a fold only for Latin-1 characters.
- Queries.SearchNarrows: the lemma is about the model's `lower()`. In Python it can fail beyond Latin-1. With the final-sigma rule, "ΑΣΑ" is found by the query "ΑΣΑ" but not by the shorter "ΑΣ", because `"ΑΣ".lower()` ends in the final form ς. It holds of Python when the titles and queries are Latin-1.
- Unicode tables are approximated:
  - lower case covers ASCII and Latin-1;
  - the ASCII fold decomposes the Latin-1 letters and compatibility characters, the mathematical bold letters and the double-struck capitals; it maps the Unicode spaces whose compatibility decomposition is a space to `' '`; it drops every other non-ASCII character, which is right for those without an ASCII decomposition (U+0085, U+1680, U+2028, U+2029, for instance) and an approximation for the rest;
  - `\d` and `\w` are ASCII only;
  - whitespace is Python's `isspace` set.
- Reconcile.IsBetterMatch: `similarity` is a `real`, so IEEE rounding at the 0.05 margin is not modelled.
- Reconcile.MergeMetadata: `list(set(...))` has hash-dependent order. The model keeps first-seen order, and its contract speaks only of contents and absence of duplicates.
- Dynamic-typing failures are not modelled: `similarity: null` or `areas: null` raising a TypeError, non-object entries, and a `url` that is not a string. Extra JSON fields of a record are not represented.
- A record without `areas` or `catalogos` is stored with the empty list there. That matches `merge_metadata`, which reads them with `get(f, [])`, and the builder, which always writes both.
- Queries.DistinctSorted: the listings index `revista['areas']` and `revista['catalogos']` directly (app.py:31, app.py:50) and raise KeyError on a record without the field; the model reads the empty list there, so that failure is not modelled.
- Queries.FilterBy: the area and catalogue pages index `info['areas']` and `info['catalogos']` directly (app.py:40, app.py:59) and raise KeyError on a record without the field; the model reads the empty list, so that failure is not modelled.
- Queries.Lookup: `revistas.get(titulo, {})` returns an empty dict for an unknown title; the model's empty record stands for it and cannot be told apart from a stored record with no scalar field and two empty lists.
- The percentage print of the diagnostic divides by zero on an empty mapping, and the function then returns nothing. The model reports counts only. Diagnostic.Analyze returns the two maps where the source returns their sizes.
- Reconcile.CombineResults models a fresh combiner. Reusing one combiner accumulates its results and counters across calls, and that is not modelled.
- Diagnostic.Analyze groups journal names as a set. The source keeps them in a list in dictionary order, which holds the same names.
