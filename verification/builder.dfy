/**
 * The directory builder: every row of the per-area and per-catalogue title
 * lists is filed under its cleaned title, and each journal collects, once
 * each and in first-seen order, the areas and the catalogues it is listed
 * in.
 */
module Builder {
  import opened Text
  import opened Seqs
  import opened Records
  import opened MapLoops
  import opened Collect

  // ---------------------------------------------------------------------
  // Cleaning

  /** `limpiar_titulo`: lower-case, strip, then fold to ASCII. The fold
      comes last, so a non-whitespace character that folds to a space at
      either end leaves a space there, and a capital without a lower-case
      form, such as a mathematical bold letter, folds to an ASCII capital. */
  function CleanTitle(s: string): (r: string)
    ensures IsAscii(r)
    ensures IsLatin1(s) ==> HasNoUpper(r)
  {
    var t := Strip(LowerStr(s));
    FoldIsAscii(t);
    CleanLatin1(s);
    Fold(t)
  }

  lemma CleanLatin1(s: string)
    ensures IsLatin1(s) ==> HasNoUpper(Fold(Strip(LowerStr(s))))
  {
    if IsLatin1(s) {
      LowerStrHasNoUpper(s);
      StripKeepsNoUpper(LowerStr(s));
      LowerStripLatin1(s);
      FoldNoUpper(Strip(LowerStr(s)));
    }
  }

  /** On ASCII input the fold has nothing to do: the cleaned title is the
      lower-cased, stripped title, and cleaning it again changes nothing. */
  lemma CleanTitleOfAscii(s: string)
    requires IsAscii(s)
    ensures CleanTitle(s) == Strip(LowerStr(s))
    ensures CleanTitle(CleanTitle(s)) == CleanTitle(s)
  {
    var t := Strip(LowerStr(s));
    LowerAscii(s);
    StrippedAscii(LowerStr(s));
    FoldOfAscii(t);
    assert IsLatin1(s);
    CleanTitleTwice(s);
    StripFixed(t);
  }

  /** Cleaning a cleaned title, which is ASCII, only lower-cases and strips
      it again; from a Latin-1 title, whose cleaned form has no capitals, it
      only strips. */
  lemma CleanTitleTwice(s: string)
    ensures CleanTitle(CleanTitle(s)) == Strip(LowerStr(CleanTitle(s)))
    ensures IsLatin1(s) ==> CleanTitle(CleanTitle(s)) == Strip(CleanTitle(s))
  {
    var c := CleanTitle(s);
    LowerAscii(c);
    StrippedAscii(LowerStr(c));
    FoldOfAscii(Strip(LowerStr(c)));
    if IsLatin1(s) {
      LowerStrFixed(c);
    }
  }

  lemma LowerAscii(s: string)
    requires IsAscii(s)
    ensures IsAscii(LowerStr(s))
  {
  }

  /** A mathematical bold capital A cleans to the ASCII capital "A", which a
      second cleaning lower-cases: beyond Latin-1 a cleaned title can hold
      capitals, and cleaning it again does more than strip it. */
  lemma CleanTitleMathBold(s: string)
    requires s == "\U{1D400}"
    ensures CleanTitle(s) == "A"
    ensures Strip(CleanTitle(s)) == "A"
    ensures CleanTitle(CleanTitle(s)) == "a"
  {
    BoldCapitalFolds(s);
    CleanCapital(CleanTitle(s));
  }

  lemma CleanCapital(k: string)
    requires k == "A"
    ensures Strip(k) == k
    ensures CleanTitle(k) == "a"
  {
    StripFixed(k);
    CleanTitleOfAscii(k);
    assert LowerStr(k) == "a";
    StripFixed("a");
  }

  /** Stripping keeps a string ASCII. */
  lemma StrippedAscii(c: string)
    requires IsAscii(c)
    ensures IsAscii(Strip(c))
  {
    var t := Strip(c);
    forall i | 0 <= i < |t|
      ensures IsAsciiChar(t[i])
    {
      assert t[i] == c[StripOffset(c) + i];
    }
  }

  /** A spacing acute accent at the end of a title folds to a trailing
      space that no later step removes, so cleaning is not idempotent. */
  lemma CleanTitleTrailingSpace(s: string)
    requires s == "a\U{B4}"
    ensures CleanTitle(s) == "a "
    ensures CleanTitle(CleanTitle(s)) == "a"
  {
    AccentFolds(s);
    CleanTitleTwice(s);
    StripTrailingSpace(CleanTitle(s));
  }

  lemma AccentFolds(s: string)
    requires s == "a\U{B4}"
    ensures Fold(Strip(LowerStr(s))) == "a "
  {
    LowerStrFixed(s);
    StripFixed(s);
    assert s == "a" + ['\U{B4}'] + "";
    FoldOneChar("a", '\U{B4}', "");
  }

  lemma StripTrailingSpace(s: string)
    requires s == "a "
    ensures Strip(s) == "a"
  {
    assert !IsSpace(s[0]) && IsSpace(s[1]);
    assert TrimStart(s) == s;
    assert s[..1] == "a";
    assert TrimEnd(s) == TrimEnd(s[..1]);
    assert TrimEnd("a") == "a";
  }

  const GridSuffix := " RadGridExport"
  const GridSuffixUnderscore := "_RadGridExport"

  /** `limpiar_nombre_area`: every ` RadGridExport`, then every
      `_RadGridExport`, is removed from a file name. */
  function CleanAreaName(s: string): (r: string)
    ensures |r| <= |s|
    ensures !Contains(s, GridSuffix) && !Contains(s, GridSuffixUnderscore) ==> r == s
  {
    RemoveAll(RemoveAll(s, GridSuffix), GridSuffixUnderscore)
  }

  /** The export suffix ` RadGridExport` is cut from a name that does not
      otherwise mention either suffix. */
  lemma CleanAreaNameSpaceSuffix(a: string)
    requires forall i | 0 <= i < |a| :: !OccursAt(a + GridSuffix, GridSuffix, i)
    requires !Contains(a, GridSuffixUnderscore)
    ensures CleanAreaName(a + GridSuffix) == a
  {
    RemoveAllSuffix(a, GridSuffix);
  }

  /** The export suffix `_RadGridExport` is cut from a name that does not
      otherwise mention either suffix. */
  lemma CleanAreaNameUnderscoreSuffix(a: string)
    requires forall i | 0 <= i < |a| :: !OccursAt(a + GridSuffixUnderscore, GridSuffixUnderscore, i)
    requires !Contains(a + GridSuffixUnderscore, GridSuffix)
    ensures CleanAreaName(a + GridSuffixUnderscore) == a
  {
    RemoveAllSuffix(a, GridSuffixUnderscore);
  }

  /** A name without a capital R cannot hold either suffix, nor can the
      space suffix straddle its end, so that suffix is cut cleanly. */
  lemma CleanAreaNameWithoutR(a: string)
    requires 'R' !in a
    ensures CleanAreaName(a + GridSuffix) == a
  {
    NoStraddle(a, GridSuffix);
    NotContained(a, GridSuffixUnderscore);
    CleanAreaNameSpaceSuffix(a);
  }

  /** A suffix whose second character is an R absent from `a`, and whose
      first is not an R, occurs in `a + p` only at the end. */
  lemma NoStraddle(a: string, p: string)
    requires |p| >= 2 && p[1] == 'R' && p[0] != 'R' && 'R' !in a
    ensures forall i | 0 <= i < |a| :: !OccursAt(a + p, p, i)
  {
    forall i | 0 <= i < |a|
      ensures !OccursAt(a + p, p, i)
    {
      var t := a + p;
      if i + 1 < |a| {
        assert t[i + 1] == a[i + 1];
      } else {
        assert t[i + 1] == p[0];
      }
      assert t[i + 1] != p[1];
      assert i + |p| <= |t| ==> t[i..i + |p|][1] == t[i + 1];
    }
  }

  /** A string without a capital R does not contain a pattern with one. */
  lemma NotContained(t: string, p: string)
    requires |p| >= 2 && p[1] == 'R' && 'R' !in t
    ensures !Contains(t, p)
  {
    forall i | 0 <= i && i + |p| <= |t|
      ensures !OccursAt(t, p, i)
    {
      assert t[i..i + |p|][1] == t[i + 1];
    }
  }

  /** The name of an exported area file loses its suffix. */
  lemma CleanAreaNameExample(a: string)
    requires a == "Biologia"
    ensures CleanAreaName(a + GridSuffix) == a
  {
    CleanAreaNameWithoutR(a);
  }

  // ---------------------------------------------------------------------
  // Reading the title lists

  /** The header cell the exported lists carry. */
  const TitleHeader := "TITULO:"

  /** One exported list: the file name without extension and the cells of
      its single column, in order. */
  datatype CsvFile = CsvFile(stem: string, cells: seq<string>)

  /** One row of the combined table: a raw journal title and the cleaned
      name of the area or catalogue whose list it came from. */
  datatype Row = Row(name: string, value: string)

  /** The rows of one list: every cell except the header, tagged with the
      cleaned file name. */
  function FileRows(f: CsvFile): seq<Row> {
    CellRows(f.cells, CleanAreaName(f.stem))
  }

  function CellRows(cells: seq<string>, value: string): seq<Row> {
    if cells == [] then []
    else (if cells[0] == TitleHeader then [] else [Row(cells[0], value)]) + CellRows(cells[1..], value)
  }

  /** `pd.concat` of the lists read from all files, in the given order. */
  function ReadAll(files: seq<CsvFile>): seq<Row> {
    if files == [] then [] else FileRows(files[0]) + ReadAll(files[1..])
  }

  /** A list yields one row per non-header cell, all tagged alike: as many
      rows as cells other than `TITULO:`, and a row for exactly the
      non-header cells. */
  lemma {:induction false} CellRowsMembers(cells: seq<string>, value: string)
    ensures |CellRows(cells, value)| == |cells| - multiset(cells)[TitleHeader]
    ensures forall row :: row in CellRows(cells, value) <==>
              row.name in cells && row.name != TitleHeader && row.value == value
    decreases |cells|
  {
    if cells != [] {
      CellRowsMembers(cells[1..], value);
      assert cells == [cells[0]] + cells[1..];
      assert multiset(cells) == multiset{cells[0]} + multiset(cells[1..]);
      assert forall x :: x in cells <==> x == cells[0] || x in cells[1..];
    }
  }

  /** Every row read comes from some file, as a non-header cell tagged with
      that file's cleaned name, and every such cell is read. */
  lemma {:induction false} ReadAllMembers(files: seq<CsvFile>, row: Row)
    ensures row in ReadAll(files) <==>
              exists i | 0 <= i < |files| :: row in FileRows(files[i])
    decreases |files|
  {
    if files != [] {
      ReadAllMembers(files[1..], row);
      if row in ReadAll(files) && row !in FileRows(files[0]) {
        var i :| 0 <= i < |files[1..]| && row in FileRows(files[1..][i]);
        assert row in FileRows(files[i + 1]);
      }
      if i :| 0 <= i < |files| && row in FileRows(files[i]) {
        if i > 0 {
          assert files[1..][i - 1] == files[i];
        }
      }
    }
  }

  // ---------------------------------------------------------------------
  // Aggregation

  /** The title a row is filed under. */
  function RowTitle(row: Row): string {
    CleanTitle(row.name)
  }

  function RowValue(row: Row): string {
    row.value
  }

  /** The values of the rows whose name cleans to `t`, in row order. */
  function ValuesFor(rows: seq<Row>, t: string): seq<string> {
    ValuesOf(rows, RowTitle, RowValue, t)
  }

  /** The cleaned titles of the rows. */
  function Titles(rows: seq<Row>): set<string> {
    KeysOf(rows, RowTitle)
  }

  /** The record the builder starts a title with. */
  const Fresh := EmptyRecord

  /** What a title holds before a pass over the rows. */
  function Base(m: Journal, t: string): Record {
    if t in m then m[t] else Fresh
  }

  /** The record a pass over `rows` leaves under `t`: the field `f` of the
      starting record extended with the new values of its rows. */
  function Extended(m: Journal, rows: seq<Row>, f: Field, t: string): Record {
    var b := Base(m, t);
    WithValues(b, f, AppendNew(Values(b, f), ValuesFor(rows, t)))
  }

  /** One pass of the builder loop over the rows of one kind: a title not
      seen yet starts as the empty record, and the row's value is appended
      to field `f` unless already present. */
  method AddRows(m: Journal, rows: seq<Row>, f: Field) returns (m': Journal)
    ensures m'.Keys == m.Keys + Titles(rows)
    ensures forall t | t in m' :: m'[t] == Extended(m, rows, f, t)
  {
    m' := m;
    var i := 0;
    while i < |rows|
      invariant 0 <= i <= |rows|
      invariant forall t :: t in m' <==> t in m || t in Titles(rows[..i])
      invariant forall t | t in m' :: m'[t] == Extended(m, rows[..i], f, t)
    {
      m' := AddRow(m, rows, f, i, m');
      i := i + 1;
    }
    assert rows[..i] == rows;
    SameMembers(m'.Keys, m.Keys + Titles(rows));
  }

  /** Files row `i` into the mapping built from the rows before it. */
  method AddRow(m: Journal, rows: seq<Row>, f: Field, i: nat, acc: Journal) returns (acc': Journal)
    requires i < |rows|
    requires forall t :: t in acc <==> t in m || t in Titles(rows[..i])
    requires forall t | t in acc :: acc[t] == Extended(m, rows[..i], f, t)
    ensures forall t :: t in acc' <==> t in m || t in Titles(rows[..i + 1])
    ensures forall t | t in acc' :: acc'[t] == Extended(m, rows[..i + 1], f, t)
  {
    var row := rows[i];
    var t := RowTitle(row);
    var e := if t in acc then acc[t] else Fresh;
    var vs := Values(e, f);
    acc' := acc[t := if row.value in vs then e else WithValues(e, f, vs + [row.value])];
    KeysOfSnoc(rows, RowTitle, i);
    if t !in acc {
      ValuesOfOutside(rows[..i], RowTitle, RowValue, t);
    }
    forall u | u in acc'
      ensures acc'[u] == Extended(m, rows[..i + 1], f, u)
    {
      ExtendedSnoc(m, rows, i, f, u);
    }
  }

  /** One more row changes only the record of its own title, and that one
      as the loop body does. */
  lemma ExtendedSnoc(m: Journal, rows: seq<Row>, i: nat, f: Field, u: string)
    requires i < |rows|
    ensures Extended(m, rows[..i + 1], f, u) ==
              var e := Extended(m, rows[..i], f, u);
              if RowTitle(rows[i]) != u || rows[i].value in Values(e, f) then e
              else WithValues(e, f, Values(e, f) + [rows[i].value])
  {
    var row := rows[i];
    var b := Base(m, u);
    var vs := ValuesFor(rows[..i], u);
    ValuesOfSnoc(rows, RowTitle, RowValue, i, u);
    var a := AppendNew(Values(b, f), vs);
    if RowTitle(row) == u {
      AppendNewSnoc(Values(b, f), vs, row.value);
      WithValuesTwice(b, f, a, AppendNew(Values(b, f), vs + [row.value]));
    } else {
      assert vs + [] == vs;
    }
  }

  /** A pass over the rows of one field leaves the other field of every
      record as it was: the area pass never touches catalogues, and the
      catalogue pass never touches areas. */
  lemma PassKeepsOtherField(m: Journal, rows: seq<Row>, f: Field, g: Field, t: string)
    requires g != f
    ensures Values(Extended(m, rows, f, t), g) == Values(Base(m, t), g)
    ensures t in m ==> Values(Extended(m, rows, f, t), g) == Values(m[t], g)
  {
  }

  lemma WithValuesTwice(r: Record, f: Field, a: seq<string>, b: seq<string>)
    ensures WithValues(WithValues(r, f, a), f, b) == WithValues(r, f, b)
  {
  }

  /** The directory entry of a title: the areas and the catalogues of its
      rows, each once, in the order first seen. */
  function Entry(areaRows: seq<Row>, catalogRows: seq<Row>, t: string): Record {
    Fresh.(areas := Dedup(ValuesFor(areaRows, t)), catalogos := Dedup(ValuesFor(catalogRows, t)))
  }

  /** `procesar_y_generar_json` without the file I/O: the area rows are
      filed first, then the catalogue rows. Every cleaned title of either
      kind of list is a key, and its record lists its areas and catalogues. */
  method Build(areaFiles: seq<CsvFile>, catalogFiles: seq<CsvFile>) returns (d: Journal)
    ensures d.Keys == Titles(ReadAll(areaFiles)) + Titles(ReadAll(catalogFiles))
    ensures forall t | t in d :: d[t] == Entry(ReadAll(areaFiles), ReadAll(catalogFiles), t)
  {
    var areaRows, catalogRows := ReadAll(areaFiles), ReadAll(catalogFiles);
    var m1 := AddRows(map[], areaRows, Areas);
    d := AddRows(m1, catalogRows, Catalogos);
    forall t | t in d
      ensures d[t] == Entry(areaRows, catalogRows, t)
    {
      SecondPass(areaRows, catalogRows, m1, t);
    }
  }

  /** After the area pass, the catalogue pass completes each title's entry. */
  lemma SecondPass(areaRows: seq<Row>, catalogRows: seq<Row>, m1: Journal, t: string)
    requires m1.Keys == Titles(areaRows)
    requires forall u | u in m1 :: m1[u] == Extended(map[], areaRows, Areas, u)
    ensures Extended(m1, catalogRows, Catalogos, t) == Entry(areaRows, catalogRows, t)
  {
    if t !in m1 {
      ValuesOfOutside(areaRows, RowTitle, RowValue, t);
    }
  }

  /** Titles cleaned from names are ASCII, and lower-case when the names
      are Latin-1. */
  lemma TitlesAreClean(rows: seq<Row>, t: string)
    requires t in Titles(rows)
    ensures IsAscii(t)
    ensures (forall j | 0 <= j < |rows| :: IsLatin1(rows[j].name)) ==> HasNoUpper(t)
  {
    KeysOfMembers(rows, RowTitle, t);
    var j :| 0 <= j < |rows| && RowTitle(rows[j]) == t;
  }

  /** Every cell of every list lies in the Latin-1 block. */
  predicate Latin1Lists(files: seq<CsvFile>) {
    forall i, c | 0 <= i < |files| && c in files[i].cells :: IsLatin1(c)
  }

  /** Cell `c` of file `i` is a journal-title cell naming `t`. */
  predicate ListsTitle(files: seq<CsvFile>, i: int, c: string, t: string) {
    0 <= i < |files| && c in files[i].cells && c != TitleHeader && CleanTitle(c) == t
  }

  /** A title is a key exactly when some non-header cell of some list
      cleans to it. */
  lemma TitleListed(files: seq<CsvFile>, t: string)
    ensures t in Titles(ReadAll(files)) <==> exists i, c :: ListsTitle(files, i, c, t)
  {
    var rows := ReadAll(files);
    KeysOfMembers(rows, RowTitle, t);
    if j :| 0 <= j < |rows| && RowTitle(rows[j]) == t {
      var i := RowSource(files, rows[j]);
      assert ListsTitle(files, i, rows[j].name, t);
    }
    if i, c :| ListsTitle(files, i, c, t) {
      var j := RowIndex(files, i, c);
      assert RowTitle(rows[j]) == t;
    }
  }

  /** A value is listed under a title exactly when some non-header cell of
      a list with that cleaned name cleans to the title. */
  lemma ValueListed(files: seq<CsvFile>, t: string, v: string)
    ensures v in ValuesFor(ReadAll(files), t) <==>
              exists i, c :: ListsTitle(files, i, c, t) && CleanAreaName(files[i].stem) == v
  {
    var rows := ReadAll(files);
    ValuesOfMembers(rows, RowTitle, RowValue, t, v);
    if j :| 0 <= j < |rows| && RowTitle(rows[j]) == t && RowValue(rows[j]) == v {
      var i := RowSource(files, rows[j]);
      assert ListsTitle(files, i, rows[j].name, t);
    }
    if i, c :| ListsTitle(files, i, c, t) && CleanAreaName(files[i].stem) == v {
      var j := RowIndex(files, i, c);
      assert RowTitle(rows[j]) == t && RowValue(rows[j]) == v;
    }
  }

  /** The file a read row comes from. */
  lemma RowSource(files: seq<CsvFile>, row: Row) returns (i: int)
    requires row in ReadAll(files)
    ensures 0 <= i < |files| && row.name in files[i].cells && row.name != TitleHeader
    ensures row.value == CleanAreaName(files[i].stem)
  {
    ReadAllMembers(files, row);
    i :| 0 <= i < |files| && row in FileRows(files[i]);
    CellRowsMembers(files[i].cells, CleanAreaName(files[i].stem));
  }

  /** Where a non-header cell of file `i` sits among the rows read. */
  lemma RowIndex(files: seq<CsvFile>, i: int, c: string) returns (j: int)
    requires 0 <= i < |files| && c in files[i].cells && c != TitleHeader
    ensures 0 <= j < |ReadAll(files)| && ReadAll(files)[j] == Row(c, CleanAreaName(files[i].stem))
  {
    var row := Row(c, CleanAreaName(files[i].stem));
    CellRowsMembers(files[i].cells, row.value);
    ReadAllMembers(files, row);
    j :| 0 <= j < |ReadAll(files)| && ReadAll(files)[j] == row;
  }

  /** End to end: a journal of the built directory is filed under an area
      exactly when its title appears in that area's list, and likewise for
      catalogues; its keys are ASCII, and lower-case when every list is
      Latin-1. */
  lemma BuildListsSources(areaFiles: seq<CsvFile>, catalogFiles: seq<CsvFile>, d: Journal, t: string, v: string)
    requires d.Keys == Titles(ReadAll(areaFiles)) + Titles(ReadAll(catalogFiles))
    requires forall u | u in d :: d[u] == Entry(ReadAll(areaFiles), ReadAll(catalogFiles), u)
    requires t in d
    ensures IsAscii(t)
    ensures Latin1Lists(areaFiles) && Latin1Lists(catalogFiles) ==> HasNoUpper(t)
    ensures NoDup(d[t].areas) && NoDup(d[t].catalogos)
    ensures v in d[t].areas <==> exists i, c :: ListsTitle(areaFiles, i, c, t) && CleanAreaName(areaFiles[i].stem) == v
    ensures v in d[t].catalogos <==> exists i, c :: ListsTitle(catalogFiles, i, c, t) && CleanAreaName(catalogFiles[i].stem) == v
  {
    if t in Titles(ReadAll(areaFiles)) {
      TitlesAreClean(ReadAll(areaFiles), t);
    } else {
      TitlesAreClean(ReadAll(catalogFiles), t);
    }
    ValueListed(areaFiles, t, v);
    ValueListed(catalogFiles, t, v);
    if Latin1Lists(areaFiles) && Latin1Lists(catalogFiles) {
      var files := if t in Titles(ReadAll(areaFiles)) then areaFiles else catalogFiles;
      TitleListed(files, t);
      var i, c :| ListsTitle(files, i, c, t);
      assert IsLatin1(c);
    }
  }
}
