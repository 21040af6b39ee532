/** The relevance filter applied to every fetched entry: its publish time
    must be known and younger than the threshold, and its title must
    contain one of the keywords as a whole word, ignoring case.

    Times are whole seconds. Which characters count as word characters
    (`\w` of Python's `re`) is a parameter `isWord`. */
module Relevance {
  import opened Strings

  // ----------------------------------------------------------------- time

  /** A parsed publish time: wall-clock seconds and, when the text named
      one, the UTC offset in seconds. */
  datatype Timestamp = Timestamp(wall: int, utcOffset: Option<int>)

  /** What the date parser makes of a publish-time text. `Unparseable` is
      the ValueError or TypeError that the ingestion loop catches; `Crashed`
      is any other exception, which escapes to the per-feed handler. */
  datatype DateParse = Parsed(time: Timestamp) | Unparseable | Crashed

  /** A time without a zone is taken to be UTC. */
  function AssumeUtc(t: Timestamp): (r: Timestamp)
    ensures r.utcOffset.Some? && r.wall == t.wall
    ensures t.utcOffset.None? ==> r.utcOffset == Some(0)
    ensures t.utcOffset.Some? ==> r == t
  {
    if t.utcOffset.None? then t.(utcOffset := Some(0)) else t
  }

  function UtcSeconds(t: Timestamp): int
    requires t.utcOffset.Some?
  {
    t.wall - t.utcOffset.value
  }

  const SecondsPerHour: int := 3600

  /** The time test of the filter: a publish time is known and its age
      `now - published` is strictly below `thresholdHours` hours. */
  predicate RecentEnough(published: Option<Timestamp>, now: int, thresholdHours: int)
  {
    published.Some?
    && now - UtcSeconds(AssumeUtc(published.value)) < thresholdHours * SecondsPerHour
  }

  /** An entry exactly `thresholdHours` old is dropped and one a second
      younger is kept; a zone-less time means the same as that time at
      offset zero, and a time at offset `o` is `o` seconds earlier in UTC. */
  lemma ThresholdIsExclusive(now: int, thresholdHours: int, wall: int, offset: int)
    ensures !RecentEnough(Some(Timestamp(now - thresholdHours * 3600, None)), now, thresholdHours)
    ensures RecentEnough(Some(Timestamp(now - thresholdHours * 3600 + 1, None)), now, thresholdHours)
    ensures RecentEnough(Some(Timestamp(wall, None)), now, thresholdHours)
        == RecentEnough(Some(Timestamp(wall, Some(0))), now, thresholdHours)
    ensures RecentEnough(Some(Timestamp(wall, Some(offset))), now, thresholdHours)
        == RecentEnough(Some(Timestamp(wall - offset, None)), now, thresholdHours)
    ensures !RecentEnough(None, now, thresholdHours)
  {
  }

  // ------------------------------------------------------------- keywords

  /** The alternatives of `\b(k1|...|kn)\b`; with no keywords the group is
      `()`, whose only alternative is the empty string. */
  function Alternatives(keywords: seq<string>): seq<string>
  {
    if keywords == [] then [""] else keywords
  }

  predicate WordAt(s: string, i: int, isWord: char -> bool)
  {
    0 <= i < |s| && isWord(s[i])
  }

  /** `\b` at position `p` (between `s[p-1]` and `s[p]`). */
  predicate Boundary(s: string, p: int, isWord: char -> bool)
  {
    WordAt(s, p - 1, isWord) != WordAt(s, p, isWord)
  }

  /** `k` matches `s` at `p` under IGNORECASE. */
  predicate SameIgnoringCase(s: string, k: string, p: int)
  {
    0 <= p && p + |k| <= |s| && forall j :: 0 <= j < |k| ==> LowerChar(s[p + j]) == LowerChar(k[j])
  }

  /** `\bk\b` matches `s` at `p`. */
  predicate HitAt(s: string, k: string, p: int, isWord: char -> bool)
  {
    SameIgnoringCase(s, k, p) && Boundary(s, p, isWord) && Boundary(s, p + |k|, isWord)
  }

  /** What finding the pattern in `title` means: some alternative occurs,
      ignoring case, with a word boundary on both sides. */
  ghost predicate TitleMatches(title: string, keywords: seq<string>, isWord: char -> bool)
  {
    exists i, p :: 0 <= i < |Alternatives(keywords)| && HitAt(title, Alternatives(keywords)[i], p, isWord)
  }

  /** Index of the first alternative that matches at `p`. */
  function AlternativeAt(s: string, alts: seq<string>, p: nat, isWord: char -> bool): (r: Option<nat>)
    ensures r.Some? ==> r.value < |alts| && HitAt(s, alts[r.value], p, isWord)
    ensures r.Some? ==> forall i :: 0 <= i < r.value ==> !HitAt(s, alts[i], p, isWord)
    ensures r.None? ==> forall i :: 0 <= i < |alts| ==> !HitAt(s, alts[i], p, isWord)
    decreases |alts|
  {
    if alts == [] then None
    else if HitAt(s, alts[0], p, isWord) then Some(0)
    else
      var rest := AlternativeAt(s, alts[1..], p, isWord);
      if rest.None? then None else Some(rest.value + 1)
  }

  /** `pattern.search(s)` from position `p` on: the leftmost position where
      some alternative matches, and the first alternative that matches
      there (regular-expression alternation is ordered). */
  function SearchFrom(s: string, alts: seq<string>, p: nat, isWord: char -> bool): (r: Option<(nat, nat)>)
    requires p <= |s|
    ensures r.Some? ==> p <= r.value.0 <= |s| && r.value.1 < |alts|
    ensures r.Some? ==> HitAt(s, alts[r.value.1], r.value.0, isWord)
    ensures r.Some? ==> forall q, i :: p <= q < r.value.0 && 0 <= i < |alts| ==> !HitAt(s, alts[i], q, isWord)
    ensures r.Some? ==> forall i :: 0 <= i < r.value.1 ==> !HitAt(s, alts[i], r.value.0, isWord)
    ensures r.None? ==> forall q, i :: p <= q && 0 <= i < |alts| ==> !HitAt(s, alts[i], q, isWord)
    decreases |s| - p
  {
    var here := AlternativeAt(s, alts, p, isWord);
    if here.Some? then Some((p, here.value))
    else if p == |s| then None
    else SearchFrom(s, alts, p + 1, isWord)
  }

  /** The keyword test of the filter: the search for the pattern built from
      `keywords` succeeds exactly when the title matches in the sense of
      `TitleMatches`. */
  function KeywordFound(title: string, keywords: seq<string>, isWord: char -> bool): (b: bool)
    ensures b <==> TitleMatches(title, keywords, isWord)
  {
    var r := SearchFrom(title, Alternatives(keywords), 0, isWord);
    if r.Some? then
      assert HitAt(title, Alternatives(keywords)[r.value.1], r.value.0, isWord);
      true
    else false
  }

  /** With an empty keyword list the pattern degenerates to `\b()\b`, which
      matches exactly the titles that contain a word character. */
  lemma {:induction false} EmptyKeywordListMatchesWordyTitles(title: string, isWord: char -> bool)
    ensures TitleMatches(title, [], isWord) <==> exists i :: 0 <= i < |title| && isWord(title[i])
  {
    if exists i :: 0 <= i < |title| && isWord(title[i]) {
      var i :| 0 <= i < |title| && isWord(title[i]);
      var j := FirstWordChar(title, 0, i, isWord);
      assert HitAt(title, Alternatives([])[0], j, isWord);
    }
    if TitleMatches(title, [], isWord) {
      var i, p :| 0 <= i < |Alternatives([])| && HitAt(title, Alternatives([])[i], p, isWord);
      assert WordAt(title, p - 1, isWord) || WordAt(title, p, isWord);
    }
  }

  /** The first word character of `s` at or after `from`, given one at `i`. */
  function FirstWordChar(s: string, from: nat, i: nat, isWord: char -> bool): (j: nat)
    requires from <= i < |s| && isWord(s[i])
    ensures from <= j <= i && isWord(s[j])
    ensures forall m :: from <= m < j ==> !isWord(s[m])
    decreases i - from
  {
    if isWord(s[from]) then from else FirstWordChar(s, from + 1, i, isWord)
  }

  /** Lower-casing the keywords first, as the ingestion run does, changes
      nothing: the comparison already ignores case. */
  lemma {:induction false} KeywordCaseIrrelevant(title: string, keywords: seq<string>, isWord: char -> bool)
    ensures TitleMatches(title, LowerAll(keywords), isWord) <==> TitleMatches(title, keywords, isWord)
  {
    var a, b := Alternatives(LowerAll(keywords)), Alternatives(keywords);
    assert |a| == |b|;
    forall i, p | 0 <= i < |a|
      ensures HitAt(title, a[i], p, isWord) <==> HitAt(title, b[i], p, isWord)
    {
      assert |a[i]| == |b[i]|;
      forall j | 0 <= j < |a[i]| ensures LowerChar(a[i][j]) == LowerChar(b[i][j]) {
      }
    }
    if TitleMatches(title, keywords, isWord) {
      var i, p :| 0 <= i < |b| && HitAt(title, b[i], p, isWord);
      assert HitAt(title, a[i], p, isWord);
    }
    if TitleMatches(title, LowerAll(keywords), isWord) {
      var i, p :| 0 <= i < |a| && HitAt(title, a[i], p, isWord);
      assert HitAt(title, b[i], p, isWord);
    }
  }

  /** `[k.lower() for k in keywords]`. */
  function LowerAll(keywords: seq<string>): (r: seq<string>)
    ensures |r| == |keywords|
    ensures forall i :: 0 <= i < |r| ==> r[i] == Lower(keywords[i])
  {
    if keywords == [] then [] else [Lower(keywords[0])] + LowerAll(keywords[1..])
  }

  /** A keyword inside a longer word does not match ("Preprocessing" and
      "process"), while the same keyword standing alone does ("Deep
      learning process"), whatever `isWord` says beyond letters and blanks. */
  lemma EmbeddedKeywordDoesNotMatch(isWord: char -> bool)
    requires forall c :: 'a' <= c <= 'z' || 'A' <= c <= 'Z' ==> isWord(c)
    requires !isWord(' ')
    ensures !TitleMatches("Preprocessing", ["process"], isWord)
    ensures TitleMatches("Deep learning process", ["process"], isWord)
  {
    var s, k := "Preprocessing", "process";
    forall p | 0 <= p ensures !HitAt(s, k, p, isWord) {
      if p == 0 {
        assert LowerChar(s[2]) != LowerChar(k[2]);
      } else if p == 3 {
        assert isWord(s[2]) && isWord(s[3]);
      } else if p + |k| <= |s| {
        assert LowerChar(s[p]) != LowerChar(k[0]);
      }
    }
    var t := "Deep learning process";
    assert isWord(t[14]) && !isWord(t[13]);
    assert SameIgnoringCase(t, k, 14);
    assert HitAt(t, Alternatives([k])[0], 14, isWord);
  }
}
