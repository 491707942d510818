/**
 * The title normalisers of the record reconciler: `normalize_title`, the
 * comparison key of the merge tool, and the weaker key used by the duplicate
 * diagnostic (lower case and ASCII fold only).
 */
module TitleKey {
  import opened Wrappers
  import opened Text

  /** ASCII word characters separated by single spaces, with no space at
      either end. */
  predicate IsCanonicalKey(k: string) {
    && (forall i | 0 <= i < |k| :: IsWordChar(k[i]) || k[i] == ' ')
    && (k != [] ==> k[0] != ' ' && k[|k| - 1] != ' ')
    && (forall i | 0 <= i < |k| - 1 :: !(k[i] == ' ' && k[i + 1] == ' '))
  }

  /** `re.sub(r'[^\w\s]', ' ', s)`: every character that is neither a word
      character nor whitespace becomes a space, one for one. */
  function PunctToSpace(s: string): (r: string)
    ensures |r| == |s|
    ensures forall i | 0 <= i < |s| :: IsWordChar(r[i]) || IsSpace(r[i])
    ensures forall i | 0 <= i < |s| :: IsWordChar(s[i]) || IsSpace(s[i]) ==> r[i] == s[i]
    ensures forall i | 0 <= i < |s| :: r[i] != s[i] ==> r[i] == ' '
  {
    seq(|s|, i requires 0 <= i < |s| => if IsWordChar(s[i]) || IsSpace(s[i]) then s[i] else ' ')
  }

  /** `normalize_title`: "" for a missing or empty title, otherwise lower
      case, strip, ASCII fold, punctuation to spaces, whitespace runs to one
      space, strip. The key is lower-case when the title is Latin-1; beyond
      it, the fold can yield capitals that the lower-casing step never saw. */
  function NormalizeTitle(title: Option<string>): (r: string)
    ensures title.None? || title.value == "" ==> r == ""
    ensures IsCanonicalKey(r)
    ensures title.Some? && IsLatin1(title.value) ==> HasNoUpper(r)
  {
    if title.None? || title.value == "" then ""
    else
      NormalizedShape(title.value);
      Normalized(title.value)
  }

  /** The pipeline of `normalize_title` on a non-empty string. */
  function Normalized(s: string): string {
    Strip(CollapseSpaces(PunctToSpace(Fold(Strip(LowerStr(s))))))
  }

  lemma NormalizedShape(s: string)
    ensures IsCanonicalKey(Normalized(s))
    ensures IsLatin1(s) ==> HasNoUpper(Normalized(s))
  {
    var p := PunctToSpace(Fold(Strip(LowerStr(s))));
    CollapseSpacesSingle(p);
    CollapseSpacesChars(p, IsWordChar);
    StrippedKey(CollapseSpaces(p), IsWordChar);
    if IsLatin1(s) {
      NormalizedNoUpper(s);
    }
  }

  lemma NormalizedNoUpper(s: string)
    requires IsLatin1(s)
    ensures HasNoUpper(Normalized(s))
  {
    FoldedNoUpper(s);
    LastStepsNoUpper(Fold(Strip(LowerStr(s))));
  }

  /** Punctuation to spaces, collapsing and stripping add no capitals. */
  lemma LastStepsNoUpper(f: string)
    requires HasNoUpper(f)
    ensures HasNoUpper(Strip(CollapseSpaces(PunctToSpace(f))))
  {
    var p := PunctToSpace(f);
    assert forall i | 0 <= i < |p| :: IsSpace(p[i]) || KeyChar(p[i]) by {
      assert forall i | 0 <= i < |p| :: p[i] == f[i] || p[i] == ' ';
    }
    CollapseSpacesSingle(p);
    CollapseSpacesChars(p, KeyChar);
    StrippedKey(CollapseSpaces(p), KeyChar);
    KeyCharsNoUpper(Strip(CollapseSpaces(p)));
  }

  lemma KeyCharsNoUpper(r: string)
    requires forall k | 0 <= k < |r| :: r[k] == ' ' || KeyChar(r[k])
    ensures HasNoUpper(r)
  {
  }

  /** The first three steps keep a Latin-1 title free of capitals. */
  lemma FoldedNoUpper(s: string)
    requires IsLatin1(s)
    ensures HasNoUpper(Fold(Strip(LowerStr(s))))
  {
    LowerStrHasNoUpper(s);
    StripKeepsNoUpper(LowerStr(s));
    LowerStripLatin1(s);
    FoldNoUpper(Strip(LowerStr(s)));
  }

  /** Stripping a single-spaced string whose other characters satisfy `q`,
      a class of word characters, gives a canonical key of such characters. */
  lemma StrippedKey(c: string, q: char -> bool)
    requires forall ch | q(ch) :: IsWordChar(ch)
    requires SingleSpaced(c)
    requires forall i | 0 <= i < |c| :: c[i] == ' ' || q(c[i])
    ensures IsCanonicalKey(Strip(c))
    ensures forall k | 0 <= k < |Strip(c)| :: Strip(c)[k] == ' ' || q(Strip(c)[k])
  {
    StrippedChars(c, q);
    StrippedSingleSpaced(c);
    KeyShape(Strip(c), q);
  }

  lemma StrippedChars(c: string, q: char -> bool)
    requires forall i | 0 <= i < |c| :: c[i] == ' ' || q(c[i])
    ensures forall k | 0 <= k < |Strip(c)| :: Strip(c)[k] == ' ' || q(Strip(c)[k])
  {
    var r, i := Strip(c), StripOffset(c);
    assert r == c[i..i + |r|];
    KeyCharsSlice(c, q, i, i + |r|);
  }

  lemma StrippedSingleSpaced(c: string)
    requires SingleSpaced(c)
    ensures SingleSpaced(Strip(c))
  {
    var r, i := Strip(c), StripOffset(c);
    assert r == c[i..i + |r|];
    SingleSpacedSlice(c, i, i + |r|);
  }

  /** A single-spaced string of word characters and ' ' that neither starts
      nor ends with whitespace is a canonical key. */
  lemma KeyShape(r: string, q: char -> bool)
    requires forall ch | q(ch) :: IsWordChar(ch)
    requires SingleSpaced(r)
    requires forall k | 0 <= k < |r| :: r[k] == ' ' || q(r[k])
    requires r != [] ==> !IsSpace(r[0]) && !IsSpace(r[|r| - 1])
    ensures IsCanonicalKey(r)
  {
  }

  lemma KeyCharsSlice(c: string, q: char -> bool, i: int, j: int)
    requires 0 <= i <= j <= |c|
    requires forall k | 0 <= k < |c| :: c[k] == ' ' || q(c[k])
    ensures forall k | 0 <= k < j - i :: c[i..j][k] == ' ' || q(c[i..j][k])
  {
    forall k | 0 <= k < j - i
      ensures c[i..j][k] == ' ' || q(c[i..j][k])
    {
      assert c[i..j][k] == c[i + k];
    }
  }

  /** A character a lower-case key may hold besides ' '. */
  predicate KeyChar(c: char) {
    IsWordChar(c) && !IsUpper(c)
  }

  /** A canonical key without upper-case letters is its own key. */
  lemma CanonicalKeyFixed(k: string)
    requires IsCanonicalKey(k) && HasNoUpper(k)
    ensures NormalizeTitle(Some(k)) == k
  {
    if k != "" {
      CanonicalKeyFacts(k);
      LowerStrFixed(k);
      StripFixed(k);
      FoldOfAscii(k);
      CollapseSpacesFixed(k);
      assert Normalized(k) == Strip(CollapseSpaces(PunctToSpace(Fold(Strip(LowerStr(k))))));
    }
  }

  /** What each step of the key needs to know of a canonical key. */
  lemma CanonicalKeyFacts(k: string)
    requires IsCanonicalKey(k)
    ensures IsAscii(k) && SingleSpaced(k) && PunctToSpace(k) == k
    ensures k != [] ==> !IsSpace(k[0]) && !IsSpace(k[|k| - 1])
  {
  }

  /** Normalising a key a second time changes nothing (stated for Latin-1
      titles: beyond Latin-1, the fold can produce upper-case letters after
      the lower-casing step, see `NormalizeTitleMathBold`). */
  lemma NormalizeTitleIdempotent(s: string)
    requires IsLatin1(s)
    ensures NormalizeTitle(Some(NormalizeTitle(Some(s)))) == NormalizeTitle(Some(s))
  {
    CanonicalKeyFixed(NormalizeTitle(Some(s)));
  }

  /** Every word character of the title survives, lower-cased, into its key;
      in particular `_` is kept. */
  lemma NormalizeTitleKeepsWordChars(s: string, j: int)
    requires 0 <= j < |s| && IsWordChar(s[j])
    ensures Lower(s[j]) in NormalizeTitle(Some(s))
  {
    var f := FoldedKeepsWordChar(s, j);
    KeyKeepsWordChar(Fold(Strip(LowerStr(s))), f);
  }

  /** A word character of the title survives, lower-cased, the first three
      steps of the key, at the returned index. */
  lemma FoldedKeepsWordChar(s: string, j: int) returns (jf: int)
    requires 0 <= j < |s| && IsWordChar(s[j])
    ensures 0 <= jf < |Fold(Strip(LowerStr(s)))|
    ensures Fold(Strip(LowerStr(s)))[jf] == Lower(s[j])
  {
    var l := LowerStr(s);
    StripKeeps(l, j);
    var jt := j - StripOffset(l);
    var t := Strip(l);
    assert t[jt] == Lower(s[j]);
    FoldKeepsAscii(t, jt);
    jf :| 0 <= jf < |Fold(t)| && Fold(t)[jf] == Lower(s[j]);
  }

  /** A word character of a folded title survives the last three steps. */
  lemma KeyKeepsWordChar(f: string, jf: int)
    requires 0 <= jf < |f| && IsWordChar(f[jf])
    ensures f[jf] in Strip(CollapseSpaces(PunctToSpace(f)))
  {
    var p := PunctToSpace(f);
    var c := CollapseSpaces(p);
    CollapseSpacesKeeps(p, jf);
    var jc :| 0 <= jc < |c| && c[jc] == f[jf];
    StripKeeps(c, jc);
  }

  /** The key depends on a title only through its lower-cased, stripped,
      ASCII-folded form: case and accents do not change it. */
  lemma NormalizeTitleFoldInvariant(a: string, b: string)
    requires a != "" && b != ""
    requires Fold(Strip(LowerStr(a))) == Fold(Strip(LowerStr(b)))
    ensures NormalizeTitle(Some(a)) == NormalizeTitle(Some(b))
  {
  }

  /** Lower-casing a title first does not change its key. */
  lemma NormalizeTitleCaseInsensitive(a: string)
    requires a != ""
    ensures NormalizeTitle(Some(a)) == NormalizeTitle(Some(LowerStr(a)))
  {
    LowerStrHasNoUpper(a);
    LowerStrFixed(LowerStr(a));
    NormalizeTitleFoldInvariant(a, LowerStr(a));
  }

  /** Lower-casing a title first does not change its weak key either. */
  lemma WeakKeyCaseInsensitive(a: string)
    ensures WeakKey(a) == WeakKey(LowerStr(a))
  {
    LowerStrHasNoUpper(a);
    LowerStrFixed(LowerStr(a));
  }

  /** "Ciência" and "ciencia" share the key "ciencia". */
  lemma NormalizeTitleAccentExample(a: string, b: string)
    requires a == "Ci\U{EA}ncia" && b == "ciencia"
    ensures NormalizeTitle(Some(a)) == NormalizeTitle(Some(b)) == "ciencia"
  {
    var l := LowerStr(a);
    AccentedLower(a, l);
    StripFixed(l);
    AccentedFold(l);
    PlainPrefix(b);
    NormalizeTitleFoldInvariant(a, b);
    PlainKey(b);
  }

  lemma AccentedLower(a: string, l: string)
    requires a == "Ci\U{EA}ncia" && l == LowerStr(a)
    ensures l == "ci" + ['\U{EA}'] + "ncia"
  {
  }

  lemma AccentedFold(s: string)
    requires s == "ci" + ['\U{EA}'] + "ncia"
    ensures Fold(s) == "ciencia"
  {
    FoldOneChar("ci", '\U{EA}', "ncia");
    AccentedFoldChar();
  }

  lemma AccentedFoldChar()
    ensures FoldChar('\U{EA}') == ['e']
  {
  }

  lemma PlainPrefix(b: string)
    requires b == "ciencia"
    ensures Fold(Strip(LowerStr(b))) == b
  {
    LowerStrFixed(b);
    StripFixed(b);
    FoldOfAscii(b);
  }

  lemma PlainKey(b: string)
    requires b == "ciencia"
    ensures NormalizeTitle(Some(b)) == b
  {
    CanonicalKeyFixed(b);
  }

  /** A mathematical bold capital A has no lower-case form and folds to
      "A", so its key is "A", whose own key is "a": normalising is not
      idempotent beyond Latin-1. */
  lemma NormalizeTitleMathBold(s: string)
    requires s == "\U{1D400}"
    ensures NormalizeTitle(Some(s)) == "A"
    ensures NormalizeTitle(Some(NormalizeTitle(Some(s)))) == "a"
  {
    MathBoldKey(s);
    CapitalKeyLowers("A");
  }

  lemma MathBoldKey(s: string)
    requires s == "\U{1D400}"
    ensures NormalizeTitle(Some(s)) == "A"
  {
    BoldCapitalFolds(s);
    CapitalKey("A");
    KeyOfFolded(s, "A", "A");
  }

  /** The key of a title is fixed by its folded form. */
  lemma KeyOfFolded(s: string, f: string, k: string)
    requires s != "" && Fold(Strip(LowerStr(s))) == f
    requires Strip(CollapseSpaces(PunctToSpace(f))) == k
    ensures NormalizeTitle(Some(s)) == k
  {
  }

  /** The last three steps leave a one-letter key alone. */
  lemma CapitalKey(k: string)
    requires k == "A"
    ensures Strip(CollapseSpaces(PunctToSpace(k))) == k
  {
    CanonicalKeyFacts(k);
    CollapseSpacesFixed(k);
    StripFixed(k);
  }

  lemma CapitalKeyLowers(k: string)
    requires k == "A"
    ensures NormalizeTitle(Some(k)) == "a"
  {
    LowerCapital(k);
    PlainLetter("a");
    NormalizeTitleFoldInvariant(k, "a");
  }

  lemma LowerCapital(k: string)
    requires k == "A"
    ensures LowerStr(k) == LowerStr("a")
  {
  }

  lemma PlainLetter(b: string)
    requires b == "a"
    ensures NormalizeTitle(Some(b)) == b
  {
    CanonicalKeyFixed(b);
  }

  /** The key of the duplicate diagnostic: `NFKD(title.lower())` folded to
      ASCII, with no stripping and no punctuation handling. */
  function WeakKey(title: string): (r: string)
    ensures IsAscii(r)
    ensures IsLatin1(title) ==> HasNoUpper(r)
    ensures IsAscii(title) ==> r == LowerStr(title)
  {
    LowerStrHasNoUpper(title);
    FoldIsAscii(LowerStr(title));
    FoldLowerLatin1(title);
    if IsAscii(title) then
      FoldOfAscii(LowerStr(title));
      Fold(LowerStr(title))
    else
      Fold(LowerStr(title))
  }

  lemma FoldLowerLatin1(title: string)
    ensures IsLatin1(title) ==> HasNoUpper(Fold(LowerStr(title)))
  {
    if IsLatin1(title) {
      LowerStrHasNoUpper(title);
      assert IsLatin1(LowerStr(title));
      FoldNoUpper(LowerStr(title));
    }
  }
}
