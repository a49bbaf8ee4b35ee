/** The address pattern of gmail-scraper.py,
      [a-zA-Z0-9._%+-]+@[a-zA-Z0-9.-]+\.[a-zA-Z]{2,6}
    stated declaratively: which slices of a text it matches as a whole.
    The character classes are ASCII ranges (a `str` pattern without IGNORECASE). */
module EmailPattern {

  predicate IsLetter(c: char) { 'a' <= c <= 'z' || 'A' <= c <= 'Z' }

  predicate IsDigit(c: char) { '0' <= c <= '9' }

  /** The class `[a-zA-Z0-9._%+-]` of the part before the `@`. */
  predicate IsLocalChar(c: char)
  {
    IsLetter(c) || IsDigit(c) || c == '.' || c == '_' || c == '%' || c == '+' || c == '-'
  }

  /** The class `[a-zA-Z0-9.-]` of the part between the `@` and the last dot. */
  predicate IsDomainChar(c: char)
  {
    IsLetter(c) || IsDigit(c) || c == '.' || c == '-'
  }

  ghost predicate LocalRun(text: string, lo: int, hi: int)
  {
    0 <= lo <= hi <= |text| && forall k :: lo <= k < hi ==> IsLocalChar(text[k])
  }

  ghost predicate DomainRun(text: string, lo: int, hi: int)
  {
    0 <= lo <= hi <= |text| && forall k :: lo <= k < hi ==> IsDomainChar(text[k])
  }

  ghost predicate LetterRun(text: string, lo: int, hi: int)
  {
    0 <= lo <= hi <= |text| && forall k :: lo <= k < hi ==> IsLetter(text[k])
  }

  /** text[i..j] is one match of the pattern whose `@` is at index `at` and
      whose literal dot (the one before the 2 to 6 final letters) is at `dot`. */
  ghost predicate MatchSplit(text: string, i: int, at: int, dot: int, j: int)
  {
    && i < at && LocalRun(text, i, at)
    && at < |text| && text[at] == '@'
    && at + 1 < dot && DomainRun(text, at + 1, dot)
    && dot < |text| && text[dot] == '.'
    && dot + 3 <= j <= dot + 7 && LetterRun(text, dot + 1, j)
  }

  /** The pattern matches exactly the slice text[i..j]. */
  ghost predicate MatchAt(text: string, i: int, j: int)
  {
    exists at, dot :: MatchSplit(text, i, at, dot, j)
  }

  /** `s` as a whole has the form L@D.T: L one or more local characters, D one or
      more domain characters, T two to six ASCII letters. */
  ghost predicate IsAddress(s: string)
  {
    MatchAt(s, 0, |s|)
  }

  /** A match of the pattern inside a text is a non-empty slice that is itself an address. */
  lemma MatchedSliceIsAddress(text: string, i: int, j: int)
    requires MatchAt(text, i, j)
    ensures 0 <= i && i + 6 <= j <= |text|
    ensures IsAddress(text[i..j])
  {
    var at, dot :| MatchSplit(text, i, at, dot, j);
    var s := text[i..j];
    assert MatchSplit(s, 0, at - i, dot - i, j - i) by {
      forall k | 0 <= k < at - i ensures IsLocalChar(s[k]) { assert s[k] == text[i + k]; }
      forall k | at + 1 - i <= k < dot - i ensures IsDomainChar(s[k]) { assert s[k] == text[i + k]; }
      forall k | dot + 1 - i <= k < j - i ensures IsLetter(s[k]) { assert s[k] == text[i + k]; }
    }
  }
}
