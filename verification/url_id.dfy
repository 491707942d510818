/**
 * Extraction of the journal id from its lookup URL: the first match of the
 * regular expression `[?&]q=(\d+)&` sets `id` to the captured digits.
 */
module UrlId {
  import opened Wrappers
  import opened Text
  import opened Records

  /** The pattern `[?&]q=(\d+)&` matches `url` at index `i`, capturing `d`. */
  ghost predicate IdPatternAt(url: string, i: int, d: string) {
    && 0 <= i && i + 3 + |d| < |url|
    && (url[i] == '?' || url[i] == '&')
    && url[i + 1] == 'q' && url[i + 2] == '='
    && |d| > 0 && (forall k | 0 <= k < |d| :: IsAsciiDigit(d[k]))
    && url[i + 3..i + 3 + |d|] == d
    && url[i + 3 + |d|] == '&'
  }

  /** `re.search` semantics: the match at `i` is the leftmost one. */
  ghost predicate LeftmostMatch(url: string, i: int, d: string) {
    IdPatternAt(url, i, d) && forall j, e | 0 <= j < i :: !IdPatternAt(url, j, e)
  }

  /** Length of the run of ASCII digits starting at `j`. */
  function DigitRun(s: string, j: nat): (n: nat)
    requires j <= |s|
    ensures j + n <= |s|
    ensures forall k | j <= k < j + n :: IsAsciiDigit(s[k])
    ensures j + n == |s| || !IsAsciiDigit(s[j + n])
    decreases |s| - j
  {
    if j < |s| && IsAsciiDigit(s[j]) then 1 + DigitRun(s, j + 1) else 0
  }

  /** The pattern matches at `i`: the digit run after `q=` is non-empty and
      followed by `&`. */
  predicate MatchesAt(url: string, i: nat) {
    && i + 3 <= |url|
    && (url[i] == '?' || url[i] == '&')
    && url[i + 1] == 'q' && url[i + 2] == '='
    && var n := DigitRun(url, i + 3);
       n > 0 && i + 3 + n < |url| && url[i + 3 + n] == '&'
  }

  /** The capture at a matching index is the whole digit run: backtracking to
      a shorter run can never reach the `&`. */
  lemma MatchesAtCapture(url: string, i: nat, d: string)
    ensures IdPatternAt(url, i, d) <==>
              MatchesAt(url, i) && d == url[i + 3..i + 3 + DigitRun(url, i + 3)]
  {
  }

  /** Leftmost matching index at or after `from`. */
  function SearchFrom(url: string, from: nat): (r: Option<nat>)
    requires from <= |url|
    ensures r.Some? ==> from <= r.value && MatchesAt(url, r.value)
    ensures r.Some? ==> forall j | from <= j < r.value :: !MatchesAt(url, j)
    ensures r.None? ==> forall j | from <= j :: !MatchesAt(url, j)
    decreases |url| - from
  {
    if from == |url| then None
    else if MatchesAt(url, from) then Some(from)
    else SearchFrom(url, from + 1)
  }

  /** `re.search(r'[?&]q=(\d+)&', url)`, returning the captured group. */
  function SearchId(url: string): (r: Option<string>)
    ensures r.Some? ==> exists i :: LeftmostMatch(url, i, r.value)
    ensures r.None? ==> forall i, d :: !IdPatternAt(url, i, d)
  {
    match SearchFrom(url, 0)
    case None =>
      NoMatch(url);
      None
    case Some(i) =>
      var d := url[i + 3..i + 3 + DigitRun(url, i + 3)];
      Leftmost(url, i, d);
      Some(d)
  }

  lemma NoMatch(url: string)
    requires SearchFrom(url, 0).None?
    ensures forall i, d :: !IdPatternAt(url, i, d)
  {
    forall i, d | IdPatternAt(url, i, d)
      ensures false
    {
      MatchesAtCapture(url, i, d);
    }
  }

  lemma Leftmost(url: string, i: nat, d: string)
    requires SearchFrom(url, 0) == Some(i)
    requires d == url[i + 3..i + 3 + DigitRun(url, i + 3)]
    ensures LeftmostMatch(url, i, d)
  {
    MatchesAtCapture(url, i, d);
    forall j, e | 0 <= j < i
      ensures !IdPatternAt(url, j, e)
    {
      MatchesAtCapture(url, j, e);
    }
  }

  /** There is only one leftmost match. */
  lemma LeftmostUnique(url: string, i: int, d: string, i': int, d': string)
    requires LeftmostMatch(url, i, d) && LeftmostMatch(url, i', d')
    ensures i == i' && d == d'
  {
    MatchesAtCapture(url, i, d);
    MatchesAtCapture(url, i', d');
  }

  /** The id extraction step applied to one record before any comparison:
      when the URL is truthy and matches, `id` becomes the captured digits;
      otherwise the record is left alone. */
  function ExtractId(r: Record): (r': Record)
    ensures r' == r.(id := r'.id)
    ensures r.id.Some? ==> r'.id.Some?
    ensures (!Truthy(r.url) || forall i, d :: !IdPatternAt(r.url.value, i, d)) ==> r' == r
    ensures forall i, d | Truthy(r.url) && LeftmostMatch(r.url.value, i, d) :: r'.id == Some(d)
  {
    if Truthy(r.url) then
      match SearchId(r.url.value)
      case Some(d) =>
        ExtractedIsLeftmost(r.url.value, d);
        r.(id := Some(d))
      case None => r
    else r
  }

  lemma ExtractedIsLeftmost(url: string, d: string)
    requires SearchId(url) == Some(d)
    ensures forall i, e | LeftmostMatch(url, i, e) :: e == d
  {
    var i0 :| LeftmostMatch(url, i0, d);
    forall i, e | LeftmostMatch(url, i, e)
      ensures e == d
    {
      LeftmostUnique(url, i, e, i0, d);
    }
  }

  /** Extraction applied to every record of a mapping. */
  function ExtractIds(m: Journal): (m': Journal)
    ensures m'.Keys == m.Keys
    ensures forall k | k in m :: m'[k] == ExtractId(m[k])
  {
    map k | k in m :: ExtractId(m[k])
  }

  /** Extracting twice gives the same record as extracting once. */
  lemma ExtractIdIdempotent(r: Record)
    ensures ExtractId(ExtractId(r)) == ExtractId(r)
  {
  }

  /** A run of digits followed by `&` is measured exactly. */
  lemma {:induction false} DigitRunOfDigits(s: string, j: nat, d: string)
    requires j + |d| < |s| && s[j..j + |d|] == d && s[j + |d|] == '&'
    requires forall k | 0 <= k < |d| :: IsAsciiDigit(d[k])
    ensures DigitRun(s, j) == |d|
    decreases |d|
  {
    if d != [] {
      assert s[j] == d[0];
      assert s[j + 1..j + 1 + |d[1..]|] == d[1..];
      DigitRunOfDigits(s, j + 1, d[1..]);
    }
  }

  /** A query that opens with `q=`, digits and `&` yields those digits,
      whatever follows. */
  lemma SearchIdLeading(d: string, rest: string)
    requires |d| > 0 && forall k | 0 <= k < |d| :: IsAsciiDigit(d[k])
    ensures SearchId("?q=" + d + "&" + rest) == Some(d)
  {
    var url := "?q=" + d + "&" + rest;
    assert url[3..3 + |d|] == d;
    assert url[3 + |d|] == '&';
    DigitRunOfDigits(url, 3, d);
    assert MatchesAt(url, 0);
    assert SearchFrom(url, 0) == Some(0);
  }

  /** Every match ends on an `&`, so a URL without one yields no id. */
  lemma SearchIdNeedsAmpersand(url: string)
    ensures SearchId(url).Some? ==> '&' in url
  {
    if SearchId(url).Some? {
      var d := SearchId(url).value;
      var i :| LeftmostMatch(url, i, d);
      assert url[i + 3 + |d|] == '&';
    }
  }
}
