/**
 * Character classes and string primitives shared by the title normalisers,
 * the id extractor and the read queries.
 *
 * Python's Unicode tables are approximated: `Lower` covers ASCII and the
 * Latin-1 upper-case letters, `FoldChar` (standing for NFKD followed by
 * `encode('ascii', 'ignore')`) covers ASCII, the Latin-1 block, the Unicode
 * spaces with a compatibility decomposition, the mathematical bold letters
 * and the double-struck capitals; every other non-ASCII character is
 * dropped by the fold. The bold and double-struck capitals have no
 * lower-case form, so they reach the fold unchanged and come out as
 * upper-case ASCII letters.
 */
module Text {

  predicate IsAsciiChar(c: char) { c as int < 0x80 }

  predicate IsAscii(s: string) {
    forall i | 0 <= i < |s| :: IsAsciiChar(s[i])
  }

  predicate IsAsciiUpper(c: char) { 'A' <= c <= 'Z' }

  /** Latin-1 upper-case letters (U+00C0..U+00DE, except the multiplication sign). */
  predicate IsLatin1Upper(c: char) { '\U{C0}' <= c <= '\U{DE}' && c != '\U{D7}' }

  predicate IsUpper(c: char) { IsAsciiUpper(c) || IsLatin1Upper(c) }

  predicate HasNoUpper(s: string) {
    forall i | 0 <= i < |s| :: !IsUpper(s[i])
  }

  predicate IsLatin1Char(c: char) { c as int < 0x100 }

  /** Every character lies in the first 256 code points, where the tables
      of this module agree with Python's. */
  predicate IsLatin1(s: string) {
    forall i | 0 <= i < |s| :: IsLatin1Char(s[i])
  }

  predicate IsAsciiDigit(c: char) { '0' <= c <= '9' }

  /** Python's `\w` restricted to ASCII. */
  predicate IsWordChar(c: char) {
    'a' <= c <= 'z' || 'A' <= c <= 'Z' || IsAsciiDigit(c) || c == '_'
  }

  /** Python's `str.isspace`, the set used by `strip()` and by `\s`. */
  predicate IsSpace(c: char) {
    || '\t' <= c <= '\r'
    || '\U{1C}' <= c <= ' '
    || c == '\U{85}' || c == '\U{A0}' || c == '\U{1680}'
    || '\U{2000}' <= c <= '\U{200A}'
    || c == '\U{2028}' || c == '\U{2029}' || c == '\U{202F}' || c == '\U{205F}'
    || c == '\U{3000}'
  }

  // ---------------------------------------------------------------------
  // Lower case

  function Lower(c: char): (r: char)
    ensures !IsUpper(r)
    ensures IsAsciiChar(r) <==> IsAsciiChar(c)
    ensures IsSpace(r) <==> IsSpace(c)
    ensures IsWordChar(c) ==> IsWordChar(r)
    ensures r == c <==> !IsUpper(c)
    ensures IsLatin1Char(r) <==> IsLatin1Char(c)
  {
    if IsUpper(c) then (c as int + 0x20) as char else c
  }

  function LowerStr(s: string): (r: string)
    ensures |r| == |s|
    ensures forall i | 0 <= i < |s| :: r[i] == Lower(s[i])
  {
    seq(|s|, i requires 0 <= i < |s| => Lower(s[i]))
  }

  lemma LowerStrHasNoUpper(s: string)
    ensures HasNoUpper(LowerStr(s))
  {
  }

  lemma LowerStrFixed(s: string)
    requires HasNoUpper(s)
    ensures LowerStr(s) == s
  {
  }

  // ---------------------------------------------------------------------
  // ASCII fold: NFKD decomposition, then every non-ASCII code point dropped

  function FoldChar(c: char): (r: seq<char>)
    ensures IsAscii(r)
    ensures IsAsciiChar(c) ==> r == [c]
    ensures IsLatin1Char(c) ==> |r| <= 2
    ensures IsLatin1Char(c) && !IsUpper(c) ==> HasNoUpper(r)
    ensures IsMathCapital(c) ==> |r| == 1 && IsAsciiUpper(r[0])
  {
    if IsAsciiChar(c) then [c]
    else if IsLatin1Char(c) then FoldLatin1(c)
    else FoldBeyondLatin1(c)
  }

  /** The fold of the non-ASCII half of the Latin-1 block. */
  function FoldLatin1(c: char): (r: seq<char>)
    requires IsLatin1Char(c) && !IsAsciiChar(c)
    ensures IsAscii(r) && |r| <= 2
    ensures !IsUpper(c) ==> HasNoUpper(r)
  {
    // no-break space, and the spacing diacritics: U+0020 followed by a
    // combining mark
    if c == '\U{A0}' || c == '\U{A8}' || c == '\U{AF}' || c == '\U{B4}' || c == '\U{B8}' then [' ']
    else if c == '\U{AA}' then ['a']
    else if c == '\U{BA}' then ['o']
    else if c == '\U{B2}' then ['2']
    else if c == '\U{B3}' then ['3']
    else if c == '\U{B9}' then ['1']
    else if c == '\U{BC}' then ['1', '4']
    else if c == '\U{BD}' then ['1', '2']
    else if c == '\U{BE}' then ['3', '4']
    // letters with diacritics
    else if '\U{C0}' <= c <= '\U{C5}' then ['A']
    else if c == '\U{C7}' then ['C']
    else if '\U{C8}' <= c <= '\U{CB}' then ['E']
    else if '\U{CC}' <= c <= '\U{CF}' then ['I']
    else if c == '\U{D1}' then ['N']
    else if '\U{D2}' <= c <= '\U{D6}' then ['O']
    else if '\U{D9}' <= c <= '\U{DC}' then ['U']
    else if c == '\U{DD}' then ['Y']
    else if '\U{E0}' <= c <= '\U{E5}' then ['a']
    else if c == '\U{E7}' then ['c']
    else if '\U{E8}' <= c <= '\U{EB}' then ['e']
    else if '\U{EC}' <= c <= '\U{EF}' then ['i']
    else if c == '\U{F1}' then ['n']
    else if '\U{F2}' <= c <= '\U{F6}' then ['o']
    else if '\U{F9}' <= c <= '\U{FC}' then ['u']
    else if c == '\U{FD}' || c == '\U{FF}' then ['y']
    else []
  }

  /** The fold beyond the Latin-1 block. */
  function FoldBeyondLatin1(c: char): (r: seq<char>)
    requires !IsLatin1Char(c)
    ensures IsAscii(r)
    ensures IsMathCapital(c) ==> |r| == 1 && IsAsciiUpper(r[0])
  {
    // spaces whose compatibility decomposition is U+0020
    if '\U{2000}' <= c <= '\U{200A}' || c == '\U{202F}' || c == '\U{205F}' || c == '\U{3000}' then [' ']
    // mathematical bold letters
    else if '\U{1D400}' <= c <= '\U{1D419}' then [(c as int - 0x1D400 + 'A' as int) as char]
    else if '\U{1D41A}' <= c <= '\U{1D433}' then [(c as int - 0x1D41A + 'a' as int) as char]
    // double-struck capitals of the letterlike block
    else if c == '\U{2102}' then ['C']
    else if c == '\U{210D}' then ['H']
    else if c == '\U{2115}' then ['N']
    else if c == '\U{2119}' then ['P']
    else if c == '\U{211A}' then ['Q']
    else if c == '\U{211D}' then ['R']
    else if c == '\U{2124}' then ['Z']
    else []
  }

  /** Capital letters without a lower-case form whose compatibility
      decomposition is an upper-case ASCII letter. */
  predicate IsMathCapital(c: char) {
    || '\U{1D400}' <= c <= '\U{1D419}'
    || c == '\U{2102}' || c == '\U{210D}' || c == '\U{2115}' || c == '\U{2119}'
    || c == '\U{211A}' || c == '\U{211D}' || c == '\U{2124}'
  }

  /** `unicodedata.normalize('NFKD', s).encode('ascii', 'ignore').decode('ascii')` */
  function Fold(s: string): string {
    if s == [] then [] else FoldChar(s[0]) + Fold(s[1..])
  }

  /** The fold yields ASCII only. */
  lemma {:induction false} FoldIsAscii(s: string)
    ensures IsAscii(Fold(s))
    decreases |s|
  {
    if s != [] {
      FoldIsAscii(s[1..]);
      AsciiAppend(FoldChar(s[0]), Fold(s[1..]));
    }
  }

  /** The fold leaves ASCII strings alone. */
  lemma {:induction false} FoldOfAscii(s: string)
    requires IsAscii(s)
    ensures Fold(s) == s
    decreases |s|
  {
    if s != [] {
      FoldOfAscii(s[1..]);
      assert [s[0]] + s[1..] == s;
    }
  }

  /** On Latin-1 text the fold introduces no upper-case letter. */
  lemma {:induction false} FoldNoUpper(s: string)
    requires HasNoUpper(s) && IsLatin1(s)
    ensures HasNoUpper(Fold(s))
    decreases |s|
  {
    if s != [] {
      FoldNoUpper(s[1..]);
      var a, b := FoldChar(s[0]), Fold(s[1..]);
      assert forall i | 0 <= i < |a + b| :: (a + b)[i] == if i < |a| then a[i] else b[i - |a|];
    }
  }

  lemma AsciiAppend(a: string, b: string)
    requires IsAscii(a) && IsAscii(b)
    ensures IsAscii(a + b)
  {
    assert forall i | 0 <= i < |a + b| :: (a + b)[i] == if i < |a| then a[i] else b[i - |a|];
  }

  /** The fold keeps every ASCII character. */
  lemma {:induction false} FoldKeepsAscii(s: string, j: int)
    requires 0 <= j < |s| && IsAsciiChar(s[j])
    ensures s[j] in Fold(s)
    decreases |s|
  {
    if j > 0 {
      FoldKeepsAscii(s[1..], j - 1);
    } else {
      assert Fold(s) == [s[0]] + Fold(s[1..]);
    }
  }

  /** The fold works character by character, so it distributes over
      concatenation. */
  lemma {:induction false} FoldAppend(a: string, b: string)
    ensures Fold(a + b) == Fold(a) + Fold(b)
    decreases |a|
  {
    if a != [] {
      assert (a + b)[1..] == a[1..] + b;
      FoldAppend(a[1..], b);
    } else {
      assert a + b == b;
    }
  }

  /** Folding a string with one non-ASCII character replaces just that
      character by its decomposition. */
  lemma FoldOneChar(a: string, c: char, b: string)
    requires IsAscii(a) && IsAscii(b)
    ensures Fold(a + [c] + b) == a + FoldChar(c) + b
  {
    var fc := FoldChar(c);
    assert Fold([c]) == fc by {
      assert Fold([c]) == FoldChar(c) + Fold([]);
    }
    FoldOfAscii(a);
    FoldOfAscii(b);
    FoldAppend(a, [c]);
    assert Fold(a + [c]) == a + fc;
    FoldAppend(a + [c], b);
  }

  /** A mathematical bold capital A is no upper-case letter for `lower()`,
      is kept by `strip()`, and folds to the ASCII capital "A". */
  lemma BoldCapitalFolds(s: string)
    requires s == "\U{1D400}"
    ensures Fold(Strip(LowerStr(s))) == "A"
  {
    LowerStrFixed(s);
    StripFixed(s);
    FoldOneChar("", '\U{1D400}', "");
    assert "" + [s[0]] + "" == s;
  }

  // ---------------------------------------------------------------------
  // Whitespace: strip and collapse

  /** `lstrip()`: drops the leading whitespace. */
  function TrimStart(s: string): (r: string)
    ensures |r| <= |s| && r == s[|s| - |r|..]
    ensures forall i | 0 <= i < |s| - |r| :: IsSpace(s[i])
    ensures r != [] ==> !IsSpace(r[0])
  {
    if s != [] && IsSpace(s[0]) then TrimStart(s[1..]) else s
  }

  /** `rstrip()`: drops the trailing whitespace. */
  function TrimEnd(s: string): (r: string)
    ensures |r| <= |s| && r == s[..|r|]
    ensures forall i | |r| <= i < |s| :: IsSpace(s[i])
    ensures r != [] ==> !IsSpace(r[|r| - 1])
  {
    if s != [] && IsSpace(s[|s| - 1]) then TrimEnd(s[..|s| - 1]) else s
  }

  /** Where `Strip(s)` starts within `s`. */
  function StripOffset(s: string): nat
    ensures StripOffset(s) <= |s|
  {
    |s| - |TrimStart(s)|
  }

  /** `strip()`: the slice of `s` left once the leading and trailing
      whitespace is cut off. */
  function Strip(s: string): (r: string)
    ensures StripOffset(s) + |r| <= |s|
    ensures r == s[StripOffset(s)..StripOffset(s) + |r|]
    ensures r != [] ==> !IsSpace(r[0]) && !IsSpace(r[|r| - 1])
  {
    var t := TrimStart(s);
    var r := TrimEnd(t);
    SliceOfSlice(s, t, r, |s| - |t|);
    StripEnds(t);
    r
  }

  lemma SliceOfSlice(s: string, t: string, r: string, i: int)
    requires 0 <= i <= |s| && t == s[i..] && |r| <= |t| && r == t[..|r|]
    ensures r == s[i..i + |r|]
  {
  }

  /** Only whitespace is cut: every other character of `s` is kept. */
  lemma StripKeeps(s: string, j: int)
    requires 0 <= j < |s| && !IsSpace(s[j])
    ensures StripOffset(s) <= j < StripOffset(s) + |Strip(s)|
    ensures s[j] in Strip(s)
  {
    var t := TrimStart(s);
    var r := TrimEnd(t);
    var i := |s| - |t|;
    assert j >= i;
    assert t[j - i] == s[j];
    assert j - i < |r|;
    assert Strip(s)[j - i] == s[j];
  }

  lemma StripKeepsNoUpper(s: string)
    requires HasNoUpper(s)
    ensures HasNoUpper(Strip(s))
  {
  }

  /** Lower-casing and stripping keep Latin-1 text Latin-1. */
  lemma LowerStripLatin1(s: string)
    requires IsLatin1(s)
    ensures IsLatin1(Strip(LowerStr(s)))
  {
    var l := LowerStr(s);
    var t := Strip(l);
    forall i | 0 <= i < |t|
      ensures IsLatin1Char(t[i])
    {
      assert t[i] == l[StripOffset(l) + i];
    }
  }

  lemma StripEnds(t: string)
    requires t != [] ==> !IsSpace(t[0])
    ensures TrimEnd(t) != [] ==> !IsSpace(TrimEnd(t)[0]) && !IsSpace(TrimEnd(t)[|TrimEnd(t)| - 1])
  {
    var r := TrimEnd(t);
    if r != [] {
      assert r[0] == t[0];
    }
  }

  /** `re.sub(r'\s+', ' ', s)`: every maximal whitespace run becomes one space. */
  function CollapseSpaces(s: string): (r: string)
    ensures r == [] <==> s == []
    ensures r != [] ==> (r[0] == ' ' <==> IsSpace(s[0]))
    decreases |s|
  {
    if s == [] then []
    else if IsSpace(s[0]) then [' '] + CollapseSpaces(TrimStart(s[1..]))
    else [s[0]] + CollapseSpaces(s[1..])
  }

  /** Collapsing leaves ' ' as the only whitespace, never twice in a row. */
  lemma {:induction false} CollapseSpacesSingle(s: string)
    ensures SingleSpaced(CollapseSpaces(s))
    decreases |s|
  {
    if s != [] {
      var t := if IsSpace(s[0]) then TrimStart(s[1..]) else s[1..];
      CollapseSpacesSingle(t);
      var h := if IsSpace(s[0]) then ' ' else s[0];
      var c := CollapseSpaces(t);
      assert CollapseSpaces(s) == [h] + c;
      assert IsSpace(s[0]) && c != [] ==> c[0] != ' ';
      SingleSpacedCons(h, c);
    }
  }

  lemma SingleSpacedCons(h: char, c: string)
    requires SingleSpaced(c)
    requires h == ' ' || !IsSpace(h)
    requires h == ' ' && c != [] ==> c[0] != ' '
    ensures SingleSpaced([h] + c)
  {
    var r := [h] + c;
    forall i | 1 <= i < |r|
      ensures r[i] == c[i - 1]
    {
    }
  }

  /** Collapsing keeps every non-whitespace character. */
  lemma {:induction false} CollapseSpacesKeeps(s: string, j: int)
    requires 0 <= j < |s| && !IsSpace(s[j])
    ensures s[j] in CollapseSpaces(s)
    decreases |s|
  {
    if IsSpace(s[0]) {
      var t := TrimStart(s[1..]);
      var k := j - 1 - (|s[1..]| - |t|);
      assert 0 <= k && t[k] == s[j];
      CollapseSpacesKeeps(t, k);
    } else if j > 0 {
      CollapseSpacesKeeps(s[1..], j - 1);
    }
  }

  /** Collapsing introduces no character other than ' ': if every character
      of `s` is whitespace or satisfies `p`, so is every character of the
      result, with ' ' as the only whitespace. */
  lemma {:induction false} CollapseSpacesChars(s: string, p: char -> bool)
    requires forall i | 0 <= i < |s| :: IsSpace(s[i]) || p(s[i])
    ensures forall i | 0 <= i < |CollapseSpaces(s)| :: CollapseSpaces(s)[i] == ' ' || p(CollapseSpaces(s)[i])
    decreases |s|
  {
    if s != [] {
      if IsSpace(s[0]) {
        var t := TrimStart(s[1..]);
        assert forall i | 0 <= i < |t| :: t[i] == s[1..][|s[1..]| - |t| + i];
        CollapseSpacesChars(t, p);
      } else {
        CollapseSpacesChars(s[1..], p);
      }
    }
  }

  /** Only single ' ' separators, never two in a row. */
  predicate SingleSpaced(s: string) {
    && (forall i | 0 <= i < |s| :: s[i] == ' ' || !IsSpace(s[i]))
    && (forall i | 0 <= i < |s| - 1 :: !(s[i] == ' ' && s[i + 1] == ' '))
  }

  lemma SingleSpacedSlice(s: string, i: int, j: int)
    requires SingleSpaced(s) && 0 <= i <= j <= |s|
    ensures SingleSpaced(s[i..j])
  {
    var t := s[i..j];
    forall k | 0 <= k < |t| - 1
      ensures !(t[k] == ' ' && t[k + 1] == ' ')
    {
      assert t[k] == s[i + k] && t[k + 1] == s[i + k + 1];
    }
  }

  lemma {:induction false} CollapseSpacesFixed(s: string)
    requires SingleSpaced(s)
    ensures CollapseSpaces(s) == s
    decreases |s|
  {
    if s != [] {
      assert SingleSpaced(s[1..]);
      CollapseSpacesFixed(s[1..]);
      if IsSpace(s[0]) {
        assert TrimStart(s[1..]) == s[1..];
      }
    }
  }

  lemma StripFixed(s: string)
    requires s != [] ==> !IsSpace(s[0]) && !IsSpace(s[|s| - 1])
    ensures Strip(s) == s
  {
  }

  // ---------------------------------------------------------------------
  // Substrings

  /** `q` occurs in `t` at index `i`. */
  predicate OccursAt(t: string, q: string, i: int) {
    0 <= i && i + |q| <= |t| && t[i..i + |q|] == q
  }

  /** Python's `q in t`. */
  function Contains(t: string, q: string): (r: bool)
    ensures r <==> exists i :: OccursAt(t, q, i)
    decreases |t|
  {
    if q <= t then
      assert OccursAt(t, q, 0);
      true
    else if t == [] then false
    else
      var r := Contains(t[1..], q);
      OccursShift(t, q);
      r
  }

  lemma OccursShift(t: string, q: string)
    requires t != [] && !(q <= t)
    ensures (exists i :: OccursAt(t, q, i)) <==> (exists i :: OccursAt(t[1..], q, i))
  {
    if i :| OccursAt(t[1..], q, i) {
      assert OccursAt(t, q, i + 1);
    }
    if i :| OccursAt(t, q, i) {
      if i > 0 {
        assert OccursAt(t[1..], q, i - 1);
      }
    }
  }

  /** Python's `s.replace(p, '')`: a left-to-right scan deleting
      non-overlapping occurrences of `p`. */
  function RemoveAll(s: string, p: string): (r: string)
    requires p != []
    ensures |r| <= |s|
    ensures r == s <==> !Contains(s, p)
    ensures |r| < |s| <==> Contains(s, p)
    decreases |s|
  {
    if |s| < |p| then
      assert !Contains(s, p);
      s
    else if s[..|p|] == p then
      assert p <= s;
      RemoveAll(s[|p|..], p)
    else
      assert !(p <= s);
      [s[0]] + RemoveAll(s[1..], p)
  }

  /** When `p` occurs in `a + p` only at its end, removing every occurrence
      leaves exactly `a`: no occurrence straddles the boundary. */
  lemma {:induction false} RemoveAllSuffix(a: string, p: string)
    requires p != []
    requires forall i | 0 <= i < |a| :: !OccursAt(a + p, p, i)
    ensures RemoveAll(a + p, p) == a
    decreases |a|
  {
    if a == [] {
      assert a + p == p;
      assert RemoveAll(p[|p|..], p) == [];
    } else {
      assert !OccursAt(a + p, p, 0);
      assert (a + p)[1..] == a[1..] + p;
      forall i | 0 <= i < |a[1..]|
        ensures !OccursAt(a[1..] + p, p, i)
      {
        assert !OccursAt(a + p, p, i + 1);
      }
      RemoveAllSuffix(a[1..], p);
    }
  }
}
