/** The extractor of gmail-scraper.py: `set(re.findall(PATTERN, text))` over the
    visible text of one page, written as a scanner that follows the regular
    expression engine's backtracking order, and proved against the declarative
    pattern of module EmailPattern. */
module Extractor {
  import opened EmailPattern

  datatype Option<T> = None | Some(value: T)

  /** The half-open slice [start, end) of the text that one match covers. */
  datatype Span = Span(start: nat, end: nat)

  // ---------------------------------------------------------------------------
  // The scanner for one start position
  // ---------------------------------------------------------------------------

  /** End of the maximal run of local characters from `i`. */
  function LocalRunEnd(text: string, i: nat): (r: nat)
    requires i <= |text|
    ensures i <= r <= |text| && LocalRun(text, i, r)
    ensures r == |text| || !IsLocalChar(text[r])
    decreases |text| - i
  {
    if i == |text| || !IsLocalChar(text[i]) then i else LocalRunEnd(text, i + 1)
  }

  /** End of the maximal run of domain characters from `i`. */
  function DomainRunEnd(text: string, i: nat): (r: nat)
    requires i <= |text|
    ensures i <= r <= |text| && DomainRun(text, i, r)
    ensures r == |text| || !IsDomainChar(text[r])
    decreases |text| - i
  {
    if i == |text| || !IsDomainChar(text[i]) then i else DomainRunEnd(text, i + 1)
  }

  /** End of the greedy run of letters from `i`, taking no letter at or past `limit`. */
  function LetterRunEnd(text: string, i: nat, limit: nat): (r: nat)
    requires i <= |text| && i <= limit
    ensures i <= r <= limit && LetterRun(text, i, r)
    ensures r == limit || r == |text| || !IsLetter(text[r])
    decreases limit - i
  {
    if i == limit || i == |text| || !IsLetter(text[i]) then i
    else LetterRunEnd(text, i + 1, limit)
  }

  /** A dot at `d` followed by at least two letters: where `\.[a-zA-Z]{2,6}` can match. */
  predicate TldAt(text: string, d: int)
  {
    0 <= d && d + 2 < |text| && text[d] == '.' && IsLetter(text[d + 1]) && IsLetter(text[d + 2])
  }

  /** The backtracking of the greedy domain part: the last index in [lo, hi) at
      which `\.[a-zA-Z]{2,6}` can match. */
  function LastTldDot(text: string, lo: nat, hi: nat): (r: Option<nat>)
    requires lo <= hi <= |text|
    ensures r.Some? ==> lo <= r.value < hi && TldAt(text, r.value)
    ensures r.Some? ==> forall d :: r.value < d < hi ==> !TldAt(text, d)
    ensures r.None? ==> forall d :: lo <= d < hi ==> !TldAt(text, d)
    decreases hi - lo
  {
    if lo == hi then None
    else if TldAt(text, hi - 1) then Some(hi - 1)
    else LastTldDot(text, lo, hi - 1)
  }

  /** The end of the match the engine takes when it tries the pattern at `i`, if any.
      The local part is the maximal local run and must be followed by `@`; the
      domain is the maximal domain run, cut back to its last dot that two letters
      follow; the final letters are greedy, at most six. */
  function MatchEnd(text: string, i: nat): (r: Option<nat>)
    requires i <= |text|
    ensures r.Some? ==> i + 6 <= r.value <= |text|
  {
    if i == |text| || !IsLocalChar(text[i]) then None
    else
      var at := LocalRunEnd(text, i);
      if at == |text| || text[at] != '@' then None
      else
        var e := DomainRunEnd(text, at + 1);
        if e < at + 2 then None
        else
          match LastTldDot(text, at + 2, e)
          case None => None
          case Some(dot) => Some(LetterRunEnd(text, dot + 1, dot + 7))
  }

  /** The pattern matches text[i..j] and no longer slice from `i`. */
  ghost predicate IsLongestAt(text: string, i: int, j: int)
  {
    MatchAt(text, i, j) && forall j' :: MatchAt(text, i, j') ==> j' <= j
  }

  /** Any match from `i` has its `@` where the local run from `i` ends, and its
      dot at a place the domain run covers and two letters follow. */
  lemma SplitIsForced(text: string, i: nat, at: int, dot: int, j: int)
    requires i < |text| && MatchSplit(text, i, at, dot, j)
    ensures at == LocalRunEnd(text, i)
    ensures at + 2 <= dot < DomainRunEnd(text, at + 1) && TldAt(text, dot)
  {
  }

  /** What the scanner finds is a match. */
  lemma MatchEndSound(text: string, i: nat)
    requires i <= |text| && MatchEnd(text, i).Some?
    ensures MatchAt(text, i, MatchEnd(text, i).value)
  {
    var at := LocalRunEnd(text, i);
    var e := DomainRunEnd(text, at + 1);
    var dot := LastTldDot(text, at + 2, e).value;
    var j := LetterRunEnd(text, dot + 1, dot + 7);
    assert MatchEnd(text, i) == Some(j);
    assert MatchSplit(text, i, at, dot, j);
  }

  /** Every match from `i` is found, and is no longer than what the scanner finds. */
  lemma MatchEndComplete(text: string, i: nat, at': int, dot': int, j': int)
    requires i <= |text| && MatchSplit(text, i, at', dot', j')
    ensures MatchEnd(text, i).Some? && j' <= MatchEnd(text, i).value
  {
    SplitIsForced(text, i, at', dot', j');
    var at := LocalRunEnd(text, i);
    var e := DomainRunEnd(text, at + 1);
    var last := LastTldDot(text, at + 2, e);
    assert last.Some? && dot' <= last.value;
    var dot := last.value;
    var j := LetterRunEnd(text, dot + 1, dot + 7);
    assert MatchEnd(text, i) == Some(j);
    if dot' < dot {
      // the letters after dot' stop before the dot at `dot`
      assert !IsLetter(text[dot]);
      assert j' <= dot;
    } else {
      assert j' <= j;
    }
  }

  /** The scanner is right about one start position: it finds a match exactly when
      the pattern matches some slice from `i`, and the one it finds is the longest. */
  lemma MatchEndIsLongest(text: string, i: nat)
    requires i <= |text|
    ensures MatchEnd(text, i).Some? ==> IsLongestAt(text, i, MatchEnd(text, i).value)
    ensures MatchEnd(text, i).None? ==> forall j :: !MatchAt(text, i, j)
  {
    if MatchEnd(text, i).Some? {
      MatchEndSound(text, i);
    }
    forall j' | MatchAt(text, i, j')
      ensures MatchEnd(text, i).Some? && j' <= MatchEnd(text, i).value
    {
      var at', dot' :| MatchSplit(text, i, at', dot', j');
      MatchEndComplete(text, i, at', dot', j');
    }
  }

  // ---------------------------------------------------------------------------
  // findall: leftmost, non-overlapping, resuming at the end of each match
  // ---------------------------------------------------------------------------

  /** The spans `re.findall` reports when it scans from `pos`: it tries each
      position in turn and, after a match, resumes where that match ends. */
  function MatchesFrom(text: string, pos: nat): (spans: seq<Span>)
    requires pos <= |text|
    ensures forall k :: 0 <= k < |spans| ==> pos <= spans[k].start && spans[k].start + 6 <= spans[k].end <= |text|
    ensures forall k :: 0 <= k < |spans| - 1 ==> spans[k].end <= spans[k + 1].start
    decreases |text| - pos
  {
    if pos == |text| then []
    else
      match MatchEnd(text, pos)
      case Some(j) => [Span(pos, j)] + MatchesFrom(text, j)
      case None => MatchesFrom(text, pos + 1)
  }

  /** No slice starting in [lo, hi) matches the pattern. */
  ghost predicate NoMatchStartsIn(text: string, lo: int, hi: int)
  {
    forall i, j :: lo <= i < hi ==> !MatchAt(text, i, j)
  }

  /** Reference definition of findall from `pos`: each span is the longest match
      at the leftmost position where one starts, at or after the end of the span
      before it, and after the last span nothing matches. */
  ghost predicate IsFindAll(text: string, pos: int, spans: seq<Span>)
    decreases |spans|
  {
    if spans == [] then NoMatchStartsIn(text, pos, |text|)
    else
      && pos <= spans[0].start
      && NoMatchStartsIn(text, pos, spans[0].start)
      && IsLongestAt(text, spans[0].start, spans[0].end)
      && IsFindAll(text, spans[0].end, spans[1..])
  }

  /** The scanner computes findall. */
  lemma {:induction false} MatchesFromIsFindAll(text: string, pos: nat)
    requires pos <= |text|
    ensures IsFindAll(text, pos, MatchesFrom(text, pos))
    decreases |text| - pos
  {
    var spans := MatchesFrom(text, pos);
    if pos < |text| {
      MatchEndIsLongest(text, pos);
      match MatchEnd(text, pos)
      case Some(j) =>
        MatchesFromIsFindAll(text, j);
        assert spans[1..] == MatchesFrom(text, j);
      case None =>
        MatchesFromIsFindAll(text, pos + 1);
        if spans == [] {
          forall i, j | pos <= i < |text| ensures !MatchAt(text, i, j) {
            if i == pos { } else { assert pos + 1 <= i; }
          }
        } else {
          forall i, j | pos <= i < spans[0].start ensures !MatchAt(text, i, j) {
            if i == pos { } else { assert pos + 1 <= i; }
          }
        }
    }
  }

  /** A match ends inside the text, so it starts before its end. */
  lemma MatchInside(text: string, i: int, j: int)
    requires MatchAt(text, i, j)
    ensures 0 <= i < |text| && i < j <= |text|
  {
  }

  /** findall reports nothing exactly when nothing matches from `pos` on. */
  lemma FindAllEmpty(text: string, pos: int, spans: seq<Span>)
    requires IsFindAll(text, pos, spans)
    ensures spans == [] <==> NoMatchStartsIn(text, pos, |text|)
  {
  }

  /** findall's output is determined: the reference definition has one solution. */
  lemma {:induction false} FindAllUnique(text: string, pos: int, a: seq<Span>, b: seq<Span>)
    requires IsFindAll(text, pos, a) && IsFindAll(text, pos, b)
    ensures a == b
    decreases |a|
  {
    FindAllEmpty(text, pos, a);
    FindAllEmpty(text, pos, b);
    if a != [] && b != [] {
      assert MatchAt(text, a[0].start, a[0].end) && MatchAt(text, b[0].start, b[0].end);
      assert a[0].start == b[0].start;
      assert a[0].end == b[0].end;
      FindAllUnique(text, a[0].end, a[1..], b[1..]);
      assert a == [a[0]] + a[1..] && b == [b[0]] + b[1..];
    }
  }

  // ---------------------------------------------------------------------------
  // The extracted set
  // ---------------------------------------------------------------------------

  /** The strings the spans cover. */
  function SpanTexts(text: string, spans: seq<Span>): set<string>
    requires forall k :: 0 <= k < |spans| ==> spans[k].start <= spans[k].end <= |text|
  {
    if spans == [] then {}
    else {text[spans[0].start..spans[0].end]} + SpanTexts(text, spans[1..])
  }

  /** `set(re.findall(PATTERN, text))` (gmail-scraper.py, line 21). */
  function Extract(text: string): set<string>
  {
    SpanTexts(text, MatchesFrom(text, 0))
  }

  lemma {:induction false} SpanTextsMembers(text: string, spans: seq<Span>, s: string)
    requires forall k :: 0 <= k < |spans| ==> spans[k].start <= spans[k].end <= |text|
    ensures s in SpanTexts(text, spans) <==>
      exists k :: 0 <= k < |spans| && text[spans[k].start..spans[k].end] == s
    decreases |spans|
  {
    if spans != [] {
      SpanTextsMembers(text, spans[1..], s);
      if exists k :: 0 <= k < |spans| && text[spans[k].start..spans[k].end] == s {
        var k :| 0 <= k < |spans| && text[spans[k].start..spans[k].end] == s;
        if k > 0 { assert spans[1..][k - 1] == spans[k]; }
      }
      if exists k :: 0 <= k < |spans[1..]| && text[spans[1..][k].start..spans[1..][k].end] == s {
        var k :| 0 <= k < |spans[1..]| && text[spans[1..][k].start..spans[1..][k].end] == s;
        assert spans[k + 1] == spans[1..][k];
      }
    }
  }

  lemma {:induction false} SpanTextsCard(text: string, spans: seq<Span>)
    requires forall k :: 0 <= k < |spans| ==> spans[k].start <= spans[k].end <= |text|
    ensures |SpanTexts(text, spans)| <= |spans|
    decreases |spans|
  {
    if spans != [] {
      SpanTextsCard(text, spans[1..]);
    }
  }

  /** Every extracted string is an address (the form L@D.T) and a contiguous
      slice of the text; conversely every span findall reports contributes. */
  lemma ExtractSound(text: string, s: string)
    ensures s in Extract(text) ==> IsAddress(s)
    ensures s in Extract(text) ==> exists i, j :: 0 <= i <= j <= |text| && text[i..j] == s && MatchAt(text, i, j)
  {
    var spans := MatchesFrom(text, 0);
    SpanTextsMembers(text, spans, s);
    if s in Extract(text) {
      var k :| 0 <= k < |spans| && text[spans[k].start..spans[k].end] == s;
      MatchesFromIsFindAll(text, 0);
      SpansMatch(text, 0, spans, k);
      MatchedSliceIsAddress(text, spans[k].start, spans[k].end);
    }
  }

  /** Every span of a findall is a match. */
  lemma {:induction false} SpansMatch(text: string, pos: int, spans: seq<Span>, k: int)
    requires IsFindAll(text, pos, spans) && 0 <= k < |spans|
    ensures MatchAt(text, spans[k].start, spans[k].end)
    decreases k
  {
    if k > 0 {
      SpansMatch(text, spans[0].end, spans[1..], k - 1);
      assert spans[1..][k - 1] == spans[k];
    }
  }

  /** The string at the leftmost position where the pattern matches anything is
      extracted, and it is the longest match from that position. */
  lemma LeftmostLongestIsExtracted(text: string, i: nat, j: nat)
    requires IsLongestAt(text, i, j) && NoMatchStartsIn(text, 0, i)
    ensures text[i..j] in Extract(text)
  {
    MatchesFromIsFindAll(text, 0);
    MatchInside(text, i, j);
    var spans := MatchesFrom(text, 0);
    FindAllEmpty(text, 0, spans);
    assert spans != [];
    assert MatchAt(text, spans[0].start, spans[0].end);
    assert spans[0].start == i;
    SpanTextsMembers(text, spans, text[i..j]);
  }

  // ---------------------------------------------------------------------------
  // At most one match per `@`
  // ---------------------------------------------------------------------------

  /** The number of `@` characters in text[lo..]. */
  function AtCount(text: string, lo: nat): nat
    requires lo <= |text|
    decreases |text| - lo
  {
    if lo == |text| then 0 else (if text[lo] == '@' then 1 else 0) + AtCount(text, lo + 1)
  }

  lemma {:induction false} AtCountAntitone(text: string, lo: nat, hi: nat)
    requires lo <= hi <= |text|
    ensures AtCount(text, hi) <= AtCount(text, lo)
    decreases hi - lo
  {
    if lo < hi { AtCountAntitone(text, lo + 1, hi); }
  }

  lemma {:induction false} AtCountDrops(text: string, lo: nat, at: nat, hi: nat)
    requires lo <= at < hi <= |text| && text[at] == '@'
    ensures AtCount(text, hi) + 1 <= AtCount(text, lo)
    decreases at - lo
  {
    if lo < at {
      AtCountDrops(text, lo + 1, at, hi);
    } else {
      AtCountAntitone(text, at + 1, hi);
    }
  }

  /** findall reports at most as many matches as there are `@` characters. */
  lemma {:induction false} MatchesAtMostAts(text: string, pos: nat)
    requires pos <= |text|
    ensures |MatchesFrom(text, pos)| <= AtCount(text, pos)
    decreases |text| - pos
  {
    if pos < |text| {
      match MatchEnd(text, pos)
      case Some(j) =>
        MatchesAtMostAts(text, j);
        var at := LocalRunEnd(text, pos);
        AtCountDrops(text, pos, at, j);
      case None =>
        MatchesAtMostAts(text, pos + 1);
        AtCountAntitone(text, pos, pos + 1);
    }
  }

  /** The extracted set has at most one address per `@` of the text. */
  lemma ExtractAtMostAts(text: string)
    ensures |Extract(text)| <= AtCount(text, 0)
  {
    SpanTextsCard(text, MatchesFrom(text, 0));
    MatchesAtMostAts(text, 0);
  }

  lemma {:induction false} NoAtCountsZero(text: string, lo: nat)
    requires lo <= |text|
    requires forall k :: lo <= k < |text| ==> text[k] != '@'
    ensures AtCount(text, lo) == 0
    decreases |text| - lo
  {
    if lo < |text| { NoAtCountsZero(text, lo + 1); }
  }

  /** A text without `@` yields no address. */
  lemma NoAtNoEmails(text: string)
    requires forall k :: 0 <= k < |text| ==> text[k] != '@'
    ensures Extract(text) == {}
  {
    NoAtCountsZero(text, 0);
    ExtractAtMostAts(text);
  }

  /** The final letters are cut at six: `a@b.abcdefgh` yields `a@b.abcdef`. */
  lemma TldCutAtSix()
    ensures Extract("a@b.abcdefgh") == {"a@b.abcdef"}
  {
    var t := "a@b.abcdefgh";
    assert LocalRunEnd(t, 0) == 1;
    assert DomainRunEnd(t, 2) == 12;
    assert LastTldDot(t, 3, 12) == Some(3);
    assert LetterRunEnd(t, 4, 10) == 10;
    assert MatchEnd(t, 0) == Some(10);
    assert MatchEnd(t, 10) == None;
    assert MatchEnd(t, 11) == None;
    assert MatchesFrom(t, 0) == [Span(0, 10)];
    assert SpanTexts(t, [Span(0, 10)]) == {t[0..10]} + SpanTexts(t, []);
    assert t[0..10] == "a@b.abcdef";
  }
}
