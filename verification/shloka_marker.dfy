/** `ends_with_shloka_marker` of src/generate_html.py: does a caption end with a Devanagari
    verse marker (a danda `।`, a double danda `॥`, or `॥ <number> ॥`)? The regular expression
    the script searches with is given its meaning here; the function decides it by looking at
    the last character that is not whitespace, and a lemma shows the two agree on every text. */
module ShlokaMarker {
  import opened Text

  /** `।` (U+0964) and `॥` (U+0965). */
  const Danda: char := '\U{964}'
  const DoubleDanda: char := '\U{965}'

  predicate IsDevanagari(c: char) {
    '\U{900}' <= c <= '\U{97F}'
  }

  predicate IsDevanagariDigit(c: char) {
    '\U{966}' <= c <= '\U{96F}'
  }

  /** The leading class `[ऀ-ॿ\s।॥]`. */
  predicate LeadChar(c: char) {
    IsDevanagari(c) || IsPyWhitespace(c) || c == Danda || c == DoubleDanda
  }

  /** `\s*` matches all of `s`. */
  predicate AllWhitespace(s: string) {
    forall i :: 0 <= i < |s| ==> IsPyWhitespace(s[i])
  }

  /** `s` is `\s*॥\s*[०-९]+\s*॥`, split at the first `॥` (p), the digits (q until r). */
  ghost predicate NumberedAt(s: string, p: nat, q: nat, r: nat) {
    && p < q < r < |s|
    && AllWhitespace(s[..p]) && s[p] == DoubleDanda
    && AllWhitespace(s[p + 1..q])
    && (forall i :: q <= i < r ==> IsDevanagariDigit(s[i]))
    && AllWhitespace(s[r..|s| - 1]) && s[|s| - 1] == DoubleDanda
  }

  /** The group: one of its three alternatives matches all of `s`. */
  ghost predicate MarkerGroup(s: string) {
    || (exists p, q, r :: NumberedAt(s, p, q, r))
    || (s != [] && s[|s| - 1] == DoubleDanda && AllWhitespace(s[..|s| - 1]))
    || (s != [] && s[|s| - 1] == Danda && AllWhitespace(s[..|s| - 1]))
  }

  /** `$` without MULTILINE: the end of the text, or just before a newline that ends it. */
  predicate EndAnchor(text: string, e: nat) {
    e == |text| || (e + 1 == |text| && text[e] == '\n')
  }

  /** A match of the whole pattern from `k`: lead class over `[k, a)`, the group over `[a, b)`,
      whitespace over `[b, e)`, and `$` at `e`. */
  ghost predicate MatchAt(text: string, k: nat, a: nat, b: nat, e: nat) {
    && k <= a <= b <= e <= |text|
    && (forall i :: k <= i < a ==> LeadChar(text[i]))
    && MarkerGroup(text[a..b])
    && AllWhitespace(text[b..e])
    && EndAnchor(text, e)
  }

  /** `re.search(shloka_pattern, text)` finds a match. */
  ghost predicate PatternSearch(text: string) {
    exists k, a, b, e :: MatchAt(text, k, a, b, e)
  }

  /** `ends_with_shloka_marker(text)`: false for the empty text; otherwise whether the text,
      with trailing whitespace removed, ends in a danda or a double danda. */
  function EndsWithShlokaMarker(text: string): bool
  {
    if text == [] then false
    else
      var t := TrimEnd(text, IsPyWhitespace);
      t != [] && (t[|t| - 1] == Danda || t[|t| - 1] == DoubleDanda)
  }

  /** If `text[b - 1]` is not whitespace and all after it is, trimming the end keeps `text[..b]`. */
  lemma TrimEndAt(text: string, b: nat)
    requires 0 < b <= |text| && !IsPyWhitespace(text[b - 1])
    requires AllWhitespace(text[b..])
    ensures TrimEnd(text, IsPyWhitespace) == text[..b]
  {
    TrimEndIsPrefix(text, IsPyWhitespace);
  }

  /** Every alternative of the group ends in a danda or a double danda. */
  lemma GroupEndsInDanda(s: string)
    requires MarkerGroup(s)
    ensures s != [] && (s[|s| - 1] == Danda || s[|s| - 1] == DoubleDanda)
  {
    if exists p, q, r :: NumberedAt(s, p, q, r) {
      var p, q, r :| NumberedAt(s, p, q, r);
    }
  }

  /** A text whose trimmed end is a danda is matched at its last non-whitespace character. */
  lemma MarkerGivesMatch(text: string)
    requires EndsWithShlokaMarker(text)
    ensures PatternSearch(text)
  {
    var t := TrimEnd(text, IsPyWhitespace);
    TrimEndIsPrefix(text, IsPyWhitespace);
    var b := |t|;
    var a := b - 1;
    assert text[a..b] == [t[a]];
    assert AllWhitespace(text[a..b][..0]);
    assert MarkerGroup(text[a..b]);
    assert AllWhitespace(text[b..|text|]);
    assert MatchAt(text, a, a, b, |text|);
  }

  /** Whitespace up to `$` leaves only whitespace to the end of the text. */
  lemma WhitespaceToEnd(text: string, b: nat, e: nat)
    requires b <= e <= |text| && AllWhitespace(text[b..e]) && EndAnchor(text, e)
    ensures AllWhitespace(text[b..])
  {
    forall i | 0 <= i < |text[b..]|
      ensures IsPyWhitespace(text[b..][i])
    {
      if b + i < e {
        assert text[b..][i] == text[b..e][i];
      } else {
        assert text[b..][i] == text[e] == '\n';
      }
    }
  }

  /** Any match ends its group in a danda followed only by whitespace. */
  lemma MatchGivesMarker(text: string)
    requires PatternSearch(text)
    ensures EndsWithShlokaMarker(text)
  {
    var k: nat, a: nat, b: nat, e: nat :| MatchAt(text, k, a, b, e);
    GroupEndsInDanda(text[a..b]);
    assert text[b - 1] == text[a..b][b - a - 1];
    WhitespaceToEnd(text, b, e);
    TrimEndAt(text, b);
  }

  /** The regular expression finds a match exactly when the text, with trailing whitespace
      removed, ends in `।` or `॥`: the lead class may match nothing and the search is not
      anchored at the start, so nothing before the last danda matters. */
  lemma {:induction false} ShlokaMarkerIsPatternSearch(text: string)
    ensures EndsWithShlokaMarker(text) <==> (text != [] && PatternSearch(text))
  {
    if text == [] {
      return;
    }
    if EndsWithShlokaMarker(text) {
      MarkerGivesMatch(text);
    }
    if PatternSearch(text) {
      MatchGivesMarker(text);
    }
  }
}
