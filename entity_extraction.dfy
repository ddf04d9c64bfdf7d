/**
 * The fuzzy entity finder: for every surface text registered under a locale,
 * the best-matching span of words in the utterance is scored by its
 * case-insensitive Levenshtein distance; matches whose accuracy clears the
 * threshold are sorted by start and resolved into non-overlapping occurrences.
 */
module EntityExtraction {
  import opened Wrappers
  import opened Sequences
  import Text
  import opened SimilarSearch
  import opened NamedEntities

  /** How many characters a candidate span may be longer or shorter than the surface text. */
  const WindowTolerance: nat := 2

  /**
   * One match of a registered surface text inside an utterance; `end` is
   * exclusive, so `utteranceText` is the utterance from `start` up to `end`.
   */
  datatype EntityOccurrence = EntityOccurrence(
    start: nat, end: nat, levenshtein: nat, accuracy: real,
    entity: string, option: string, sourceText: string, utteranceText: string)

  /** A span of the utterance, `end` exclusive. */
  datatype Window = Window(start: nat, end: nat)

  predicate IsSpace(c: char) {
    c == ' ' || c == '\t' || c == '\n' || c == '\r'
  }

  /** `s` is the position where a word of `u` begins. */
  predicate StartsWord(u: string, s: nat) {
    s < |u| && !IsSpace(u[s]) && (s == 0 || IsSpace(u[s - 1]))
  }

  /** `e` is the position just after a word of `u` ends. */
  predicate EndsWord(u: string, e: nat) {
    0 < e <= |u| && !IsSpace(u[e - 1]) && (e == |u| || IsSpace(u[e]))
  }

  /** `u[s..e]` is one whole word: a maximal run of non-space characters. */
  predicate IsWord(u: string, s: nat, e: nat) {
    s < e <= |u| && StartsWord(u, s) && EndsWord(u, e) &&
    forall m :: s <= m < e ==> !IsSpace(u[m])
  }

  /** The first position from `i` on that is not a space (or the end). */
  function SkipSpaces(u: string, i: nat): (r: nat)
    requires i <= |u|
    ensures i <= r <= |u| && (r < |u| ==> !IsSpace(u[r]))
    ensures forall m :: i <= m < r ==> IsSpace(u[m])
    decreases |u| - i
  {
    if i == |u| || !IsSpace(u[i]) then i else SkipSpaces(u, i + 1)
  }

  /** The first position from `i` on that is a space (or the end). */
  function WordEnd(u: string, i: nat): (r: nat)
    requires i <= |u|
    ensures i <= r <= |u| && (r < |u| ==> IsSpace(u[r]))
    ensures forall m :: i <= m < r ==> !IsSpace(u[m])
    decreases |u| - i
  {
    if i == |u| || IsSpace(u[i]) then i else WordEnd(u, i + 1)
  }

  /** The words of `u` from position `i` on, left to right, as spans. */
  function WordsFrom(u: string, i: nat): (r: seq<Window>)
    requires i <= |u|
    requires i == 0 || i == |u| || IsSpace(u[i - 1]) || IsSpace(u[i])
    ensures forall k :: 0 <= k < |r| ==> i <= r[k].start && IsWord(u, r[k].start, r[k].end)
    ensures forall k :: 0 <= k < |r| - 1 ==> r[k].end < r[k + 1].start
    decreases |u| - i
  {
    var s := SkipSpaces(u, i);
    if s == |u| then []
    else
      var e := WordEnd(u, s);
      FirstWord(u, i);
      var rest := WordsFrom(u, e);
      PrependWord(u, Window(s, e), rest);
      [Window(s, e)] + rest
  }

  /** The first run of non-space characters from `i` on is a whole word. */
  lemma FirstWord(u: string, i: nat)
    requires i <= |u|
    requires i == 0 || i == |u| || IsSpace(u[i - 1]) || IsSpace(u[i])
    requires SkipSpaces(u, i) < |u|
    ensures IsWord(u, SkipSpaces(u, i), WordEnd(u, SkipSpaces(u, i)))
  {
  }

  /** A word followed by a space puts itself in front of the words after it in order. */
  lemma PrependWord(u: string, w: Window, rest: seq<Window>)
    requires IsWord(u, w.start, w.end) && (w.end == |u| || IsSpace(u[w.end]))
    requires forall k :: 0 <= k < |rest| ==> w.end <= rest[k].start && IsWord(u, rest[k].start, rest[k].end)
    requires forall k :: 0 <= k < |rest| - 1 ==> rest[k].end < rest[k + 1].start
    ensures forall k :: 0 <= k < |[w] + rest| ==>
      w.start <= ([w] + rest)[k].start && IsWord(u, ([w] + rest)[k].start, ([w] + rest)[k].end)
    ensures forall k :: 0 <= k < |[w] + rest| - 1 ==> ([w] + rest)[k].end < ([w] + rest)[k + 1].start
  {
    if rest != [] {
      assert w.end < rest[0].start;
    }
  }

  /** Every non-space character from `i` on lies inside one of the words found from `i`. */
  lemma {:induction false} WordsFromCover(u: string, i: nat, m: nat)
    requires i <= m < |u| && !IsSpace(u[m])
    requires i == 0 || i == |u| || IsSpace(u[i - 1]) || IsSpace(u[i])
    ensures exists k :: 0 <= k < |WordsFrom(u, i)| && WordsFrom(u, i)[k].start <= m < WordsFrom(u, i)[k].end
    decreases |u| - i
  {
    var s := SkipSpaces(u, i);
    var e := WordEnd(u, s);
    var rest := WordsFrom(u, e);
    assert s <= m < |u|;
    assert WordsFrom(u, i) == [Window(s, e)] + rest;
    if m >= e {
      WordsFromCover(u, e, m);
      var k :| 0 <= k < |rest| && rest[k].start <= m < rest[k].end;
      CoverShifts(Window(s, e), rest, k, m);
    } else {
      assert ([Window(s, e)] + rest)[0] == Window(s, e);
    }
  }

  /** A span covering `m` in `rest` still covers it once a span is put in front. */
  lemma CoverShifts(w: Window, rest: seq<Window>, k: nat, m: nat)
    requires k < |rest| && rest[k].start <= m < rest[k].end
    ensures exists j :: 0 <= j < |[w] + rest| && ([w] + rest)[j].start <= m < ([w] + rest)[j].end
  {
    assert ([w] + rest)[k + 1] == rest[k];
  }

  /** The words of an utterance: its maximal runs of non-space characters. */
  function Words(u: string): (r: seq<Window>)
    ensures forall k :: 0 <= k < |r| ==> IsWord(u, r[k].start, r[k].end)
    ensures forall k :: 0 <= k < |r| - 1 ==> r[k].end < r[k + 1].start
  {
    WordsFrom(u, 0)
  }

  /** Every non-space character of the utterance lies inside one of its words. */
  lemma WordsCover(u: string, m: nat)
    requires m < |u| && !IsSpace(u[m])
    ensures exists k :: 0 <= k < |Words(u)| && Words(u)[k].start <= m < Words(u)[k].end
  {
    assert Words(u) == WordsFrom(u, 0);
    WordsFromCover(u, 0, m);
  }

  /** A span of `length` give or take the tolerance. */
  predicate InBand(spanLength: nat, length: nat) {
    length <= spanLength + WindowTolerance && spanLength <= length + WindowTolerance
  }

  /** The span is non-empty, begins where a word begins and ends where a word ends. */
  predicate WordAligned(u: string, w: Window) {
    w.start < w.end <= |u| && StartsWord(u, w.start) && EndsWord(u, w.end)
  }

  /** The spans from the start of word `a` to the end of each word from `b` on that fit the band. */
  function SpansFrom(u: string, words: seq<Window>, length: nat, a: nat, b: nat): (r: seq<Window>)
    requires forall k :: 0 <= k < |words| ==> IsWord(u, words[k].start, words[k].end)
    requires a < |words| && b <= |words|
    ensures forall k :: 0 <= k < |r| ==> WordAligned(u, r[k]) && InBand(r[k].end - r[k].start, length)
    ensures forall k :: 0 <= k < |r| ==> r[k].start == words[a].start
    ensures forall k :: (b <= k < |words| && words[a].start < words[k].end &&
      InBand(words[k].end - words[a].start, length)) ==> Window(words[a].start, words[k].end) in r
    decreases |words| - b
  {
    if b == |words| then []
    else
      var s, e := words[a].start, words[b].end;
      var here := if s < e && InBand(e - s, length) then [Window(s, e)] else [];
      here + SpansFrom(u, words, length, a, b + 1)
  }

  /**
   * The candidate spans for a surface text of `length` characters: every run
   * of whole words whose length is within the tolerance, ordered by first
   * word and then by last word.
   */
  function Windows(u: string, words: seq<Window>, length: nat, a: nat): (r: seq<Window>)
    requires forall k :: 0 <= k < |words| ==> IsWord(u, words[k].start, words[k].end)
    requires a <= |words|
    ensures forall k :: 0 <= k < |r| ==> WordAligned(u, r[k]) && InBand(r[k].end - r[k].start, length)
    ensures forall i, k :: (a <= i <= k < |words| && words[i].start < words[k].end &&
      InBand(words[k].end - words[i].start, length)) ==> Window(words[i].start, words[k].end) in r
    decreases |words| - a
  {
    if a == |words| then []
    else
      var p, q := SpansFrom(u, words, length, a, a), Windows(u, words, length, a + 1);
      assert forall i, k :: (a <= i <= k < |words| && words[i].start < words[k].end &&
        InBand(words[k].end - words[i].start, length)) ==> Window(words[i].start, words[k].end) in p + q by {
        forall i, k | a <= i <= k < |words| && words[i].start < words[k].end &&
          InBand(words[k].end - words[i].start, length)
          ensures Window(words[i].start, words[k].end) in p + q
        {
          if i == a { assert Window(words[i].start, words[k].end) in p; }
          else { assert Window(words[i].start, words[k].end) in q; }
        }
      }
      p + q
  }

  /** Spans ordered one after the next are ordered pairwise. */
  lemma {:induction false} ChainOfSpans(ws: seq<Window>)
    requires forall k :: 0 <= k < |ws| ==> ws[k].start < ws[k].end
    requires forall k :: 0 <= k < |ws| - 1 ==> ws[k].end < ws[k + 1].start
    ensures forall p, q :: 0 <= p < q < |ws| ==> ws[p].end < ws[q].start
    decreases |ws|
  {
    if |ws| > 1 {
      var t := ws[..|ws| - 1];
      ChainOfSpans(t);
      forall p, q | 0 <= p < q < |ws| ensures ws[p].end < ws[q].start {
        if q < |ws| - 1 {
          assert t[p] == ws[p] && t[q] == ws[q];
        } else if p < q - 1 {
          assert t[p] == ws[p] && t[q - 1] == ws[q - 1];
        }
      }
    }
  }

  /** The words of an utterance, in order, are pairwise apart. */
  lemma WordsOrdered(u: string)
    ensures forall p, q :: 0 <= p < q < |Words(u)| ==> Words(u)[p].end < Words(u)[q].start
  {
    ChainOfSpans(Words(u));
  }

  /** Every position where a word begins is the start of one of the words. */
  lemma WordStartingAt(u: string, s: nat)
    requires StartsWord(u, s)
    ensures exists k :: 0 <= k < |Words(u)| && Words(u)[k].start == s
  {
    WordsCover(u, s);
    var k :| 0 <= k < |Words(u)| && Words(u)[k].start <= s < Words(u)[k].end;
  }

  /** Every position just after a word ends is the end of one of the words. */
  lemma WordEndingAt(u: string, e: nat)
    requires EndsWord(u, e)
    ensures exists k :: 0 <= k < |Words(u)| && Words(u)[k].end == e
  {
    WordsCover(u, e - 1);
    var k :| 0 <= k < |Words(u)| && Words(u)[k].start <= e - 1 < Words(u)[k].end;
  }

  /** The span from the start of word `i` to the end of word `k` is a window when it fits the band. */
  lemma SpanInWindows(u: string, words: seq<Window>, length: nat, i: nat, k: nat)
    requires forall p :: 0 <= p < |words| ==> IsWord(u, words[p].start, words[p].end)
    requires i <= k < |words| && words[i].start < words[k].end
    requires InBand(words[k].end - words[i].start, length)
    ensures Window(words[i].start, words[k].end) in Windows(u, words, length, 0)
  {
  }

  /** The windows of an utterance are exactly its word-aligned spans within the band. */
  lemma WindowsExactly(u: string, w: Window, length: nat)
    ensures w in Windows(u, Words(u), length, 0) <==> (WordAligned(u, w) && InBand(w.end - w.start, length))
  {
    var words := Words(u);
    if WordAligned(u, w) && InBand(w.end - w.start, length) {
      WordStartingAt(u, w.start);
      WordEndingAt(u, w.end);
      var i :| 0 <= i < |words| && words[i].start == w.start;
      var k :| 0 <= k < |words| && words[k].end == w.end;
      WordsOrdered(u);
      assert i <= k;
      SpanInWindows(u, words, length, i, k);
    }
  }

  /** The windows come in order of their start. */
  lemma {:induction false} WindowsByStart(u: string, words: seq<Window>, length: nat, a: nat)
    requires forall k :: 0 <= k < |words| ==> IsWord(u, words[k].start, words[k].end)
    requires forall p, q :: 0 <= p < q < |words| ==> words[p].end < words[q].start
    requires a <= |words|
    ensures a < |words| ==> forall k :: 0 <= k < |Windows(u, words, length, a)| ==>
      words[a].start <= Windows(u, words, length, a)[k].start
    ensures forall p, q :: 0 <= p < q < |Windows(u, words, length, a)| ==>
      Windows(u, words, length, a)[p].start <= Windows(u, words, length, a)[q].start
    decreases |words| - a
  {
    if a < |words| {
      var here := SpansFrom(u, words, length, a, a);
      var rest := Windows(u, words, length, a + 1);
      WindowsByStart(u, words, length, a + 1);
      assert Windows(u, words, length, a) == here + rest;
      if a + 1 < |words| {
        assert words[a].start < words[a + 1].start;
      }
    }
  }

  /** The edit distance of a span of the (lower-cased) utterance to the (lower-cased) surface text. */
  function SpanDistance(lu: string, ls: string, w: Window): nat
    requires w.start <= w.end <= |lu|
  {
    Levenshtein(lu[w.start..w.end], ls)
  }

  /** Span `i` is of least distance, and every span before it is farther. */
  predicate FirstClosest(lu: string, ls: string, ws: seq<Window>, i: int)
    requires forall k :: 0 <= k < |ws| ==> ws[k].start <= ws[k].end <= |lu|
  {
    && 0 <= i < |ws|
    && (forall k :: 0 <= k < |ws| ==> SpanDistance(lu, ls, ws[i]) <= SpanDistance(lu, ls, ws[k]))
    && (forall k :: 0 <= k < i ==> SpanDistance(lu, ls, ws[k]) > SpanDistance(lu, ls, ws[i]))
  }

  /** At most one span is the first of least distance. */
  lemma FirstClosestUnique(lu: string, ls: string, ws: seq<Window>, i: int, j: int)
    requires forall k :: 0 <= k < |ws| ==> ws[k].start <= ws[k].end <= |lu|
    requires FirstClosest(lu, ls, ws, i) && FirstClosest(lu, ls, ws, j)
    ensures i == j
  {
    // both are closest, so they are equally close, and neither can come before the other
    assert SpanDistance(lu, ls, ws[i]) == SpanDistance(lu, ls, ws[j]);
  }

  /** The first span of least distance. */
  function BestWindow(lu: string, ls: string, ws: seq<Window>): (r: Window)
    requires ws != []
    requires forall k :: 0 <= k < |ws| ==> ws[k].start <= ws[k].end <= |lu|
    ensures r in ws
    ensures forall k :: 0 <= k < |ws| ==> SpanDistance(lu, ls, r) <= SpanDistance(lu, ls, ws[k])
    ensures exists i :: (0 <= i < |ws| && ws[i] == r &&
      forall k :: 0 <= k < i ==> SpanDistance(lu, ls, ws[k]) > SpanDistance(lu, ls, r))
  {
    if |ws| == 1 then ws[0]
    else
      var b := BestWindow(lu, ls, ws[1..]);
      if SpanDistance(lu, ls, ws[0]) <= SpanDistance(lu, ls, b) then ws[0]
      else
        BestWindowTail(lu, ls, ws, b);
        b
  }

  /** `w` is the first span of least distance. */
  predicate IsChosen(lu: string, ls: string, ws: seq<Window>, w: Window)
    requires forall k :: 0 <= k < |ws| ==> ws[k].start <= ws[k].end <= |lu|
  {
    exists i :: 0 <= i < |ws| && FirstClosest(lu, ls, ws, i) && ws[i] == w
  }

  /** No span qualifies: there is none, or the first of least distance scores at most the threshold. */
  predicate Rejected(lu: string, ls: string, ws: seq<Window>, length: nat, threshold: real)
    requires forall k :: 0 <= k < |ws| ==> ws[k].start < ws[k].end <= |lu|
  {
    ws == [] || exists i :: (0 <= i < |ws| && FirstClosest(lu, ls, ws, i) &&
      Accuracy(SpanDistance(lu, ls, ws[i]), length, ws[i].end - ws[i].start) <= threshold)
  }

  /** When the best span scores at most the threshold, no span qualifies. */
  lemma BestRejected(lu: string, ls: string, ws: seq<Window>, b: Window, length: nat, threshold: real)
    requires ws != []
    requires forall k :: 0 <= k < |ws| ==> ws[k].start < ws[k].end <= |lu|
    requires IsChosen(lu, ls, ws, b) && b.start < b.end
    requires Accuracy(SpanDistance(lu, ls, b), length, b.end - b.start) <= threshold
    ensures Rejected(lu, ls, ws, length, threshold)
  {
    var i :| 0 <= i < |ws| && FirstClosest(lu, ls, ws, i) && ws[i] == b;
    RejectedAt(lu, ls, ws, i, b, length, threshold);
  }

  /** The spans are rejected when the first closest one, `b`, scores at most the threshold. */
  lemma RejectedAt(lu: string, ls: string, ws: seq<Window>, i: nat, b: Window, length: nat, threshold: real)
    requires forall k :: 0 <= k < |ws| ==> ws[k].start < ws[k].end <= |lu|
    requires i < |ws| && FirstClosest(lu, ls, ws, i) && ws[i] == b
    requires Accuracy(SpanDistance(lu, ls, b), length, b.end - b.start) <= threshold
    ensures Rejected(lu, ls, ws, length, threshold)
  {
  }

  /** The best span is the first closest one. */
  lemma BestIsFirstClosest(lu: string, ls: string, ws: seq<Window>)
    requires ws != []
    requires forall k :: 0 <= k < |ws| ==> ws[k].start <= ws[k].end <= |lu|
    ensures IsChosen(lu, ls, ws, BestWindow(lu, ls, ws))
  {
    var b := BestWindow(lu, ls, ws);
    var i :| 0 <= i < |ws| && ws[i] == b && forall k :: 0 <= k < i ==> SpanDistance(lu, ls, ws[k]) > SpanDistance(lu, ls, b);
    assert FirstClosest(lu, ls, ws, i);
  }

  /** When the head is strictly worse than the best of the tail, the best of the tail is the best of all. */
  lemma BestWindowTail(lu: string, ls: string, ws: seq<Window>, b: Window)
    requires |ws| > 1
    requires forall k :: 0 <= k < |ws| ==> ws[k].start <= ws[k].end <= |lu|
    requires b in ws[1..] && b.start <= b.end <= |lu|
    requires forall k :: 0 <= k < |ws[1..]| ==> SpanDistance(lu, ls, b) <= SpanDistance(lu, ls, ws[1..][k])
    requires exists i :: (0 <= i < |ws[1..]| && ws[1..][i] == b &&
      forall k :: 0 <= k < i ==> SpanDistance(lu, ls, ws[1..][k]) > SpanDistance(lu, ls, b))
    requires SpanDistance(lu, ls, ws[0]) > SpanDistance(lu, ls, b)
    ensures b in ws
    ensures forall k :: 0 <= k < |ws| ==> SpanDistance(lu, ls, b) <= SpanDistance(lu, ls, ws[k])
    ensures exists i :: (0 <= i < |ws| && ws[i] == b &&
      forall k :: 0 <= k < i ==> SpanDistance(lu, ls, ws[k]) > SpanDistance(lu, ls, b))
  {
    forall k | 1 <= k < |ws| ensures SpanDistance(lu, ls, b) <= SpanDistance(lu, ls, ws[k]) {
      assert ws[k] == ws[1..][k - 1];
    }
    var i :| 0 <= i < |ws[1..]| && ws[1..][i] == b &&
      forall k :: 0 <= k < i ==> SpanDistance(lu, ls, ws[1..][k]) > SpanDistance(lu, ls, b);
    forall k | 0 < k < i + 1 ensures SpanDistance(lu, ls, ws[k]) > SpanDistance(lu, ls, b) {
      assert ws[k] == ws[1..][k - 1];
    }
    assert ws[i + 1] == b;
  }

  /** Accuracy of a match: one minus the distance over the longer of the two lengths. */
  function Accuracy(levenshtein: nat, sourceLength: nat, spanLength: nat): real
    requires sourceLength > 0 || spanLength > 0
  {
    1.0 - (levenshtein as real) / (Max(sourceLength, spanLength) as real)
  }

  /** Accuracy lies in [0, 1] and is 1 exactly for distance 0, whenever the distance is a real one. */
  lemma AccuracyRange(a: string, b: string)
    requires |a| > 0 || |b| > 0
    ensures 0.0 <= Accuracy(Levenshtein(a, b), |b|, |a|) <= 1.0
    ensures Accuracy(Levenshtein(a, b), |b|, |a|) == 1.0 <==> a == b
  {
    LevenshteinAtMostMaxLength(a, b);
    LevenshteinZeroIffEqual(a, b);
    assert Max(|b|, |a|) == Max(|a|, |b|);
    RatioBounds(Levenshtein(a, b), Max(|b|, |a|));
  }

  lemma RatioBounds(x: nat, m: nat)
    requires 0 < m && x <= m
    ensures 0.0 <= (x as real) / (m as real) <= 1.0
    ensures (x as real) / (m as real) == 0.0 <==> x == 0
  {
    var q := (x as real) / (m as real);
    assert q * (m as real) == x as real;
  }

  /** What every reported occurrence satisfies, whatever surface text it comes from. */
  ghost predicate ValidOccurrence(u: string, threshold: real, o: EntityOccurrence) {
    Placed(u, o) && Scored(threshold, o)
  }

  /** The span of `o` is whole words of `u`, within the band around the length of its surface text. */
  predicate Placed(u: string, o: EntityOccurrence) {
    && WordAligned(u, Window(o.start, o.end))
    && o.utteranceText == u[o.start..o.end]
    && InBand(o.end - o.start, |o.sourceText|)
  }

  /** The scores of `o` are the folded distance of its two texts and the accuracy from it, above the threshold. */
  predicate Scored(threshold: real, o: EntityOccurrence) {
    && o.start < o.end
    && o.levenshtein == Levenshtein(Text.Lower(o.utteranceText), Text.Lower(o.sourceText))
    && o.accuracy == Accuracy(o.levenshtein, |o.sourceText|, o.end - o.start)
    && threshold < o.accuracy
  }

  /** The scores of a valid occurrence: accuracy in [0, 1], and 1 exactly for a case-insensitive exact match. */
  lemma OccurrenceScores(u: string, threshold: real, o: EntityOccurrence)
    requires ValidOccurrence(u, threshold, o)
    ensures |o.utteranceText| == o.end - o.start
    ensures 0.0 <= o.accuracy <= 1.0
    ensures o.levenshtein == 0 <==> Text.Lower(o.utteranceText) == Text.Lower(o.sourceText)
    ensures o.accuracy == 1.0 <==> o.levenshtein == 0
  {
    var a, b := Text.Lower(o.utteranceText), Text.Lower(o.sourceText);
    AccuracyRange(a, b);
    LevenshteinZeroIffEqual(a, b);
  }

  /**
   * The match for one surface text: its best window, kept when its accuracy
   * is strictly above the threshold.
   */
  function MatchText(u: string, words: seq<Window>, entity: string, option: string,
                     source: string, threshold: real): (r: Option<EntityOccurrence>)
    requires forall k :: 0 <= k < |words| ==> IsWord(u, words[k].start, words[k].end)
    ensures r.Some? ==> ValidOccurrence(u, threshold, r.value)
    ensures r.Some? ==> r.value.entity == entity && r.value.option == option && r.value.sourceText == source
  {
    BestMatch(u, Windows(u, words, |source|, 0), entity, option, source, threshold)
  }

  /**
   * The match for one surface text is at the first window of least distance,
   * and there is none exactly when there is no window or that window does
   * not score above the threshold.
   */
  lemma MatchTextChosen(u: string, words: seq<Window>, entity: string, option: string, source: string, threshold: real)
    requires forall k :: 0 <= k < |words| ==> IsWord(u, words[k].start, words[k].end)
    ensures var r := MatchText(u, words, entity, option, source, threshold);
      r.Some? ==> IsChosen(Text.Lower(u), Text.Lower(source), Windows(u, words, |source|, 0),
                           Window(r.value.start, r.value.end))
    ensures var r := MatchText(u, words, entity, option, source, threshold);
      r.None? ==> Rejected(Text.Lower(u), Text.Lower(source), Windows(u, words, |source|, 0), |source|, threshold)
  {
    BestMatchChosen(u, Windows(u, words, |source|, 0), entity, option, source, threshold);
  }

  /** The match for one surface text among the given candidate windows: the first closest one, judged. */
  function BestMatch(u: string, ws: seq<Window>, entity: string, option: string,
                     source: string, threshold: real): (r: Option<EntityOccurrence>)
    requires forall k :: 0 <= k < |ws| ==> WordAligned(u, ws[k]) && InBand(ws[k].end - ws[k].start, |source|)
    ensures r.Some? ==> ValidOccurrence(u, threshold, r.value)
    ensures r.Some? ==> r.value.entity == entity && r.value.option == option && r.value.sourceText == source
  {
    if ws == [] then None
    else
      BestAligned(u, ws, source);
      Judge(u, BestWindow(Text.Lower(u), Text.Lower(source), ws), entity, option, source, threshold)
  }

  /** Candidate windows lie within the folded utterance, and the first closest one is one of them. */
  lemma BestAligned(u: string, ws: seq<Window>, source: string)
    requires forall k :: 0 <= k < |ws| ==> WordAligned(u, ws[k]) && InBand(ws[k].end - ws[k].start, |source|)
    ensures forall k :: 0 <= k < |ws| ==> ws[k].start < ws[k].end <= |Text.Lower(u)|
    ensures ws != [] ==> (WordAligned(u, BestWindow(Text.Lower(u), Text.Lower(source), ws)) &&
      InBand(BestWindow(Text.Lower(u), Text.Lower(source), ws).end - BestWindow(Text.Lower(u), Text.Lower(source), ws).start, |source|))
  {
    if ws != [] {
      var w := BestWindow(Text.Lower(u), Text.Lower(source), ws);
      var k :| 0 <= k < |ws| && ws[k] == w;
    }
  }

  /** One window judged as a match: kept, with its scores, exactly when its accuracy is strictly above the threshold. */
  function Judge(u: string, w: Window, entity: string, option: string,
                 source: string, threshold: real): (r: Option<EntityOccurrence>)
    requires WordAligned(u, w) && InBand(w.end - w.start, |source|)
    ensures r.Some? ==> ValidOccurrence(u, threshold, r.value)
    ensures r.Some? ==> r.value.entity == entity && r.value.option == option && r.value.sourceText == source
    ensures r.Some? <==> threshold < Accuracy(SpanDistance(Text.Lower(u), Text.Lower(source), w), |source|, w.end - w.start)
    ensures r.Some? ==> r.value.start == w.start && r.value.end == w.end
  {
    var lev := SpanDistance(Text.Lower(u), Text.Lower(source), w);
    var acc := Accuracy(lev, |source|, w.end - w.start);
    if acc > threshold then
      FoldedSpanDistance(u, source, w);
      WindowPlaced(u, w, lev, acc, entity, option, source);
      WindowScored(u, threshold, w, lev, acc, entity, option, source);
      Some(EntityOccurrence(w.start, w.end, lev, acc, entity, option, source, u[w.start..w.end]))
    else None
  }

  /** The match among the windows is at the first closest one, and there is none exactly when that one does not qualify. */
  lemma BestMatchChosen(u: string, ws: seq<Window>, entity: string, option: string, source: string, threshold: real)
    requires forall k :: 0 <= k < |ws| ==> WordAligned(u, ws[k]) && InBand(ws[k].end - ws[k].start, |source|)
    ensures var r := BestMatch(u, ws, entity, option, source, threshold);
      r.Some? ==> IsChosen(Text.Lower(u), Text.Lower(source), ws, Window(r.value.start, r.value.end))
    ensures var r := BestMatch(u, ws, entity, option, source, threshold);
      r.None? ==> Rejected(Text.Lower(u), Text.Lower(source), ws, |source|, threshold)
  {
    var lu, ls := Text.Lower(u), Text.Lower(source);
    if ws != [] {
      BestAligned(u, ws, source);
      var w := BestWindow(lu, ls, ws);
      var r := Judge(u, w, entity, option, source, threshold);
      assert BestMatch(u, ws, entity, option, source, threshold) == r;
      BestIsFirstClosest(lu, ls, ws);
      if r.None? {
        BestRejected(lu, ls, ws, w, |source|, threshold);
      } else {
        assert Window(r.value.start, r.value.end) == w;
      }
    }
  }

  /** A word-aligned window in the band is a placed occurrence. */
  lemma {:induction false} WindowPlaced(u: string, w: Window, lev: nat, acc: real,
                                       entity: string, option: string, source: string)
    requires WordAligned(u, w) && InBand(w.end - w.start, |source|)
    ensures Placed(u, EntityOccurrence(w.start, w.end, lev, acc, entity, option, source, u[w.start..w.end]))
  {
  }

  /** A window scored by its folded distance, with an accuracy above the threshold, is a scored occurrence. */
  lemma {:induction false} WindowScored(u: string, threshold: real, w: Window, lev: nat, acc: real,
                                       entity: string, option: string, source: string)
    requires w.start < w.end <= |u|
    requires lev == Levenshtein(Text.Lower(u[w.start..w.end]), Text.Lower(source))
    requires acc == Accuracy(lev, |source|, w.end - w.start) && threshold < acc
    ensures Scored(threshold, EntityOccurrence(w.start, w.end, lev, acc, entity, option, source, u[w.start..w.end]))
  {
  }

  /** The distance of a span of the folded utterance is the distance of the folded span. */
  lemma {:induction false} FoldedSpanDistance(u: string, source: string, w: Window)
    requires w.start <= w.end <= |u|
    ensures Levenshtein(Text.Lower(u[w.start..w.end]), Text.Lower(source)) ==
      SpanDistance(Text.Lower(u), Text.Lower(source), w)
  {
    Text.LowerSlice(u, w.start, w.end);
  }

  /** `text` is registered for `entity`'s option `option` under `locale`. */
  ghost predicate IsSurfaceText(entities: seq<NamedEntity>, entity: string, option: string, locale: string, text: string) {
    exists i, j :: 0 <= i < |entities| && 0 <= j < |entities[i].options| &&
      entities[i].name == entity && entities[i].options[j].name == option &&
      text in Bucket(entities[i].options[j].texts, locale)
  }

  /** Each occurrence is the match of its own surface text for its own entity and option. */
  predicate OwnMatches(u: string, words: seq<Window>, threshold: real, cs: seq<EntityOccurrence>)
    requires forall k :: 0 <= k < |words| ==> IsWord(u, words[k].start, words[k].end)
  {
    forall c :: c in cs ==> MatchText(u, words, c.entity, c.option, c.sourceText, threshold) == Some(c)
  }

  /** The matches of each surface text of one option, in the order of the texts. */
  function TextCandidates(u: string, words: seq<Window>, entity: string, option: string,
                          sources: seq<string>, threshold: real): (r: seq<EntityOccurrence>)
    requires forall k :: 0 <= k < |words| ==> IsWord(u, words[k].start, words[k].end)
    ensures forall c :: c in r ==>
      ValidOccurrence(u, threshold, c) && c.entity == entity && c.option == option && c.sourceText in sources
    ensures forall t :: t in sources && MatchText(u, words, entity, option, t, threshold).Some? ==>
      MatchText(u, words, entity, option, t, threshold).value in r
    ensures OwnMatches(u, words, threshold, r)
    decreases |sources|
  {
    if sources == [] then []
    else
      var m := MatchText(u, words, entity, option, sources[0], threshold);
      var rest := TextCandidates(u, words, entity, option, sources[1..], threshold);
      assert forall t :: t in sources ==> t == sources[0] || t in sources[1..];
      (if m.Some? then [m.value] else []) + rest
  }

  /** The matches of each option of one entity, for the texts of `locale`, in the order of the options. */
  function OptionCandidates(u: string, words: seq<Window>, entity: string, options: seq<EntityOption>,
                            locale: string, threshold: real): (r: seq<EntityOccurrence>)
    requires forall k :: 0 <= k < |words| ==> IsWord(u, words[k].start, words[k].end)
    ensures forall c :: c in r ==> (ValidOccurrence(u, threshold, c) && c.entity == entity &&
      exists j :: 0 <= j < |options| && options[j].name == c.option && c.sourceText in Bucket(options[j].texts, locale))
    ensures forall j, t :: (0 <= j < |options| && t in Bucket(options[j].texts, locale) &&
      MatchText(u, words, entity, options[j].name, t, threshold).Some?) ==>
      MatchText(u, words, entity, options[j].name, t, threshold).value in r
    ensures OwnMatches(u, words, threshold, r)
    decreases |options|
  {
    if options == [] then []
    else
      var here := TextCandidates(u, words, entity, options[0].name, Bucket(options[0].texts, locale), threshold);
      var rest := OptionCandidates(u, words, entity, options[1..], locale, threshold);
      OptionCandidatesStep(u, words, entity, options, locale, threshold, here, rest);
      here + rest
  }

  /** The matches of the first option followed by those of the others are the matches of all the options. */
  lemma OptionCandidatesStep(u: string, words: seq<Window>, entity: string, options: seq<EntityOption>,
                             locale: string, threshold: real, here: seq<EntityOccurrence>, rest: seq<EntityOccurrence>)
    requires forall k :: 0 <= k < |words| ==> IsWord(u, words[k].start, words[k].end)
    requires options != []
    requires forall c :: c in here ==> (ValidOccurrence(u, threshold, c) && c.entity == entity &&
      c.option == options[0].name && c.sourceText in Bucket(options[0].texts, locale))
    requires forall t :: t in Bucket(options[0].texts, locale) && MatchText(u, words, entity, options[0].name, t, threshold).Some? ==>
      MatchText(u, words, entity, options[0].name, t, threshold).value in here
    requires forall c :: c in rest ==> (ValidOccurrence(u, threshold, c) && c.entity == entity &&
      exists j :: 0 <= j < |options[1..]| && options[1..][j].name == c.option && c.sourceText in Bucket(options[1..][j].texts, locale))
    requires forall j, t :: (0 <= j < |options[1..]| && t in Bucket(options[1..][j].texts, locale) &&
      MatchText(u, words, entity, options[1..][j].name, t, threshold).Some?) ==>
      MatchText(u, words, entity, options[1..][j].name, t, threshold).value in rest
    requires OwnMatches(u, words, threshold, here) && OwnMatches(u, words, threshold, rest)
    ensures OwnMatches(u, words, threshold, here + rest)
    ensures forall c :: c in here + rest ==> (ValidOccurrence(u, threshold, c) && c.entity == entity &&
      exists j :: 0 <= j < |options| && options[j].name == c.option && c.sourceText in Bucket(options[j].texts, locale))
    ensures forall j, t :: (0 <= j < |options| && t in Bucket(options[j].texts, locale) &&
      MatchText(u, words, entity, options[j].name, t, threshold).Some?) ==>
      MatchText(u, words, entity, options[j].name, t, threshold).value in here + rest
  {
    forall c | c in here + rest
      ensures exists j :: 0 <= j < |options| && options[j].name == c.option && c.sourceText in Bucket(options[j].texts, locale)
    {
      if c in here {
        assert options[0].name == c.option && c.sourceText in Bucket(options[0].texts, locale);
      } else {
        var j :| 0 <= j < |options[1..]| && options[1..][j].name == c.option && c.sourceText in Bucket(options[1..][j].texts, locale);
        assert options[j + 1] == options[1..][j];
      }
    }
    forall j, t | 0 <= j < |options| && t in Bucket(options[j].texts, locale) &&
      MatchText(u, words, entity, options[j].name, t, threshold).Some?
      ensures MatchText(u, words, entity, options[j].name, t, threshold).value in here + rest
    {
      if j > 0 {
        assert options[j] == options[1..][j - 1];
      }
    }
  }

  /** The matches of every entity, in registration order. */
  function EntityCandidates(u: string, words: seq<Window>, entities: seq<NamedEntity>,
                            locale: string, threshold: real): (r: seq<EntityOccurrence>)
    requires forall k :: 0 <= k < |words| ==> IsWord(u, words[k].start, words[k].end)
    ensures forall c :: c in r ==>
      ValidOccurrence(u, threshold, c) && IsSurfaceText(entities, c.entity, c.option, locale, c.sourceText)
    ensures forall i, j, t :: (0 <= i < |entities| && 0 <= j < |entities[i].options| &&
      t in Bucket(entities[i].options[j].texts, locale) &&
      MatchText(u, words, entities[i].name, entities[i].options[j].name, t, threshold).Some?) ==>
      MatchText(u, words, entities[i].name, entities[i].options[j].name, t, threshold).value in r
    ensures OwnMatches(u, words, threshold, r)
    decreases |entities|
  {
    if entities == [] then []
    else
      var e := entities[0];
      var here := OptionCandidates(u, words, e.name, e.options, locale, threshold);
      var rest := EntityCandidates(u, words, entities[1..], locale, threshold);
      EntityCandidatesStep(u, words, entities, locale, threshold, here, rest);
      here + rest
  }

  /** The matches of the first entity followed by those of the others are the matches of all the entities. */
  lemma EntityCandidatesStep(u: string, words: seq<Window>, entities: seq<NamedEntity>, locale: string,
                             threshold: real, here: seq<EntityOccurrence>, rest: seq<EntityOccurrence>)
    requires forall k :: 0 <= k < |words| ==> IsWord(u, words[k].start, words[k].end)
    requires entities != []
    requires forall c :: c in here ==> (ValidOccurrence(u, threshold, c) && c.entity == entities[0].name &&
      exists j :: 0 <= j < |entities[0].options| && entities[0].options[j].name == c.option &&
        c.sourceText in Bucket(entities[0].options[j].texts, locale))
    requires forall j, t :: (0 <= j < |entities[0].options| && t in Bucket(entities[0].options[j].texts, locale) &&
      MatchText(u, words, entities[0].name, entities[0].options[j].name, t, threshold).Some?) ==>
      MatchText(u, words, entities[0].name, entities[0].options[j].name, t, threshold).value in here
    requires forall c :: c in rest ==>
      ValidOccurrence(u, threshold, c) && IsSurfaceText(entities[1..], c.entity, c.option, locale, c.sourceText)
    requires forall i, j, t :: (0 <= i < |entities[1..]| && 0 <= j < |entities[1..][i].options| &&
      t in Bucket(entities[1..][i].options[j].texts, locale) &&
      MatchText(u, words, entities[1..][i].name, entities[1..][i].options[j].name, t, threshold).Some?) ==>
      MatchText(u, words, entities[1..][i].name, entities[1..][i].options[j].name, t, threshold).value in rest
    requires OwnMatches(u, words, threshold, here) && OwnMatches(u, words, threshold, rest)
    ensures OwnMatches(u, words, threshold, here + rest)
    ensures forall c :: c in here + rest ==>
      ValidOccurrence(u, threshold, c) && IsSurfaceText(entities, c.entity, c.option, locale, c.sourceText)
    ensures forall i, j, t :: (0 <= i < |entities| && 0 <= j < |entities[i].options| &&
      t in Bucket(entities[i].options[j].texts, locale) &&
      MatchText(u, words, entities[i].name, entities[i].options[j].name, t, threshold).Some?) ==>
      MatchText(u, words, entities[i].name, entities[i].options[j].name, t, threshold).value in here + rest
  {
    forall c | c in here + rest ensures IsSurfaceText(entities, c.entity, c.option, locale, c.sourceText) {
      if c in here {
        var j :| 0 <= j < |entities[0].options| && entities[0].options[j].name == c.option &&
          c.sourceText in Bucket(entities[0].options[j].texts, locale);
        assert entities[0].name == c.entity;
      } else {
        var i, j :| 0 <= i < |entities[1..]| && 0 <= j < |entities[1..][i].options| &&
          entities[1..][i].name == c.entity && entities[1..][i].options[j].name == c.option &&
          c.sourceText in Bucket(entities[1..][i].options[j].texts, locale);
        assert entities[i + 1] == entities[1..][i];
      }
    }
    forall i, j, t | 0 <= i < |entities| && 0 <= j < |entities[i].options| &&
      t in Bucket(entities[i].options[j].texts, locale) &&
      MatchText(u, words, entities[i].name, entities[i].options[j].name, t, threshold).Some?
      ensures MatchText(u, words, entities[i].name, entities[i].options[j].name, t, threshold).value in here + rest
    {
      if i > 0 {
        assert entities[i] == entities[1..][i - 1];
      }
    }
  }

  // ---------------------------------------------------------------------------
  // Ordering and overlap resolution

  /** `a` goes strictly before `b`: it starts earlier, or at the same place with a better accuracy. */
  predicate Precedes(a: EntityOccurrence, b: EntityOccurrence) {
    a.start < b.start || (a.start == b.start && a.accuracy > b.accuracy)
  }

  /** Ascending start; at equal start, descending accuracy. */
  predicate SortedByStart(s: seq<EntityOccurrence>) {
    forall i, j :: 0 <= i < j < |s| ==> !Precedes(s[j], s[i])
  }

  /** Inserts `x` before the first element that does not go strictly before it. */
  function Insert(x: EntityOccurrence, s: seq<EntityOccurrence>): (r: seq<EntityOccurrence>)
    requires SortedByStart(s)
    ensures SortedByStart(r)
    ensures multiset(r) == multiset(s) + multiset{x}
    ensures forall y :: y in r <==> y in s || y == x
  {
    if s == [] then [x]
    else if !Precedes(s[0], x) then
      InsertFront(x, s);
      [x] + s
    else
      var rest := Insert(x, s[1..]);
      InsertAfterHead(x, s, rest);
      [s[0]] + rest
  }

  /** Putting in front an element that nothing in a sorted sequence goes before keeps it sorted. */
  lemma SortedPrepend(y: EntityOccurrence, s: seq<EntityOccurrence>)
    requires SortedByStart(s)
    requires forall j :: 0 <= j < |s| ==> !Precedes(s[j], y)
    ensures SortedByStart([y] + s)
  {
    var r := [y] + s;
    forall i, j | 0 <= i < j < |r| ensures !Precedes(r[j], r[i]) {
      assert r[j] == s[j - 1];
      if i > 0 {
        assert r[i] == s[i - 1];
      }
    }
  }

  /** When the head of a sorted sequence does not go before `x`, nothing in it does. */
  lemma InsertFront(x: EntityOccurrence, s: seq<EntityOccurrence>)
    requires SortedByStart(s) && s != [] && !Precedes(s[0], x)
    ensures SortedByStart([x] + s)
  {
    forall j | 0 < j < |s| ensures !Precedes(s[j], x) {
      assert !Precedes(s[j], s[0]);
    }
    SortedPrepend(x, s);
  }

  /** Inserting `x` after a head that goes before it keeps the sequence sorted. */
  lemma InsertAfterHead(x: EntityOccurrence, s: seq<EntityOccurrence>, rest: seq<EntityOccurrence>)
    requires SortedByStart(s) && s != [] && Precedes(s[0], x)
    requires SortedByStart(rest) && multiset(rest) == multiset(s[1..]) + multiset{x}
    ensures SortedByStart([s[0]] + rest)
    ensures multiset([s[0]] + rest) == multiset(s) + multiset{x}
  {
    assert s == [s[0]] + s[1..];
    forall j | 0 <= j < |rest| ensures !Precedes(rest[j], s[0]) {
      var y := rest[j];
      assert y in multiset(rest);
      if y != x {
        assert y in multiset(s[1..]);
        var k :| 0 <= k < |s[1..]| && s[1..][k] == y;
        assert s[k + 1] == y;
      }
    }
    SortedPrepend(s[0], rest);
  }

  /** A stable insertion sort by start, better accuracy first among equal starts. */
  function SortByStart(s: seq<EntityOccurrence>): (r: seq<EntityOccurrence>)
    ensures SortedByStart(r)
    ensures multiset(r) == multiset(s)
    ensures forall y :: y in r <==> y in s
  {
    if s == [] then []
    else
      assert s == [s[0]] + s[1..];
      Insert(s[0], SortByStart(s[1..]))
  }

  /** The spans of two occurrences share a character. */
  predicate Overlap(a: EntityOccurrence, b: EntityOccurrence) {
    a.start < b.end && b.start < a.end
  }

  /** Each occurrence ends before or where the next one starts: ordered and non-overlapping. */
  predicate Chain(s: seq<EntityOccurrence>) {
    forall i, j :: 0 <= i < j < |s| ==> s[i].end <= s[j].start
  }

  predicate NonEmptySpans(s: seq<EntityOccurrence>) {
    forall k :: 0 <= k < |s| ==> s[k].start < s[k].end
  }

  /**
   * Scanning the sorted candidates left to right, keeps each one that does
   * not overlap an occurrence already kept.
   */
  function Resolve(cands: seq<EntityOccurrence>, kept: seq<EntityOccurrence>): (r: seq<EntityOccurrence>)
    requires SortedByStart(cands) && NonEmptySpans(cands)
    requires Chain(kept) && NonEmptySpans(kept)
    requires forall k, c :: 0 <= k < |kept| && 0 <= c < |cands| ==> !Precedes(cands[c], kept[k])
    ensures Chain(r) && NonEmptySpans(r)
    ensures forall x :: x in r ==> x in kept || x in cands
    ensures forall x :: x in kept ==> x in r
    ensures forall c :: c in cands ==> c in r || exists x :: x in r && Overlap(c, x) && !Precedes(c, x)
    decreases |cands|
  {
    if cands == [] then kept
    else
      var c := cands[0];
      assert forall x :: x in cands ==> x == c || x in cands[1..];
      ResolveTail(cands, kept);
      if exists x :: x in kept && Overlap(c, x) then
        Resolve(cands[1..], kept)
      else
        ResolveKeep(cands, kept);
        Resolve(cands[1..], kept + [c])
  }

  /** The candidates after the first still come no earlier than all that was kept. */
  lemma ResolveTail(cands: seq<EntityOccurrence>, kept: seq<EntityOccurrence>)
    requires SortedByStart(cands) && NonEmptySpans(cands) && cands != []
    requires forall k, c :: 0 <= k < |kept| && 0 <= c < |cands| ==> !Precedes(cands[c], kept[k])
    ensures SortedByStart(cands[1..]) && NonEmptySpans(cands[1..])
    ensures forall k, c :: 0 <= k < |kept| && 0 <= c < |cands[1..]| ==> !Precedes(cands[1..][c], kept[k])
    ensures forall x :: x in kept ==> !Precedes(cands[0], x)
  {
    forall k, c | 0 <= k < |kept| && 0 <= c < |cands[1..]| ensures !Precedes(cands[1..][c], kept[k]) {
      assert cands[1..][c] == cands[c + 1];
    }
    forall x | x in kept ensures !Precedes(cands[0], x) {
      var k :| 0 <= k < |kept| && kept[k] == x;
    }
  }

  /** A first candidate overlapping nothing kept extends the kept chain, and the rest come no earlier than it. */
  lemma ResolveKeep(cands: seq<EntityOccurrence>, kept: seq<EntityOccurrence>)
    requires SortedByStart(cands) && NonEmptySpans(cands) && cands != []
    requires Chain(kept) && NonEmptySpans(kept)
    requires forall k, c :: 0 <= k < |kept| && 0 <= c < |cands| ==> !Precedes(cands[c], kept[k])
    requires forall x :: x in kept ==> !Overlap(cands[0], x)
    ensures Chain(kept + [cands[0]]) && NonEmptySpans(kept + [cands[0]])
    ensures forall k, c :: 0 <= k < |kept + [cands[0]]| && 0 <= c < |cands[1..]| ==>
      !Precedes(cands[1..][c], (kept + [cands[0]])[k])
  {
    var c := cands[0];
    var kept' := kept + [c];
    forall i | 0 <= i < |kept| ensures kept[i].end <= c.start {
      assert !Overlap(c, kept[i]) && !Precedes(cands[0], kept[i]);
    }
    forall k, j | 0 <= k < |kept'| && 0 <= j < |cands[1..]| ensures !Precedes(cands[1..][j], kept'[k]) {
      assert cands[1..][j] == cands[j + 1];
      if k == |kept| {
        assert kept'[k] == cands[0];
      } else {
        assert kept'[k] == kept[k];
      }
    }
  }

  /**
   * The occurrences of registered surface texts of `locale` in `utterance`:
   * the qualifying matches, sorted by start and resolved so that none overlap.
   */
  function FindEntities(entities: seq<NamedEntity>, threshold: real, utterance: string, locale: string): (r: seq<EntityOccurrence>)
    ensures Chain(r)
    ensures forall o :: o in r ==>
      ValidOccurrence(utterance, threshold, o) &&
      IsSurfaceText(entities, o.entity, o.option, locale, o.sourceText)
    ensures OwnMatches(utterance, Words(utterance), threshold, r)
    ensures forall i, j, t :: (0 <= i < |entities| && 0 <= j < |entities[i].options| &&
      t in Bucket(entities[i].options[j].texts, locale) &&
      MatchText(utterance, Words(utterance), entities[i].name, entities[i].options[j].name, t, threshold).Some?) ==>
      var m := MatchText(utterance, Words(utterance), entities[i].name, entities[i].options[j].name, t, threshold).value;
      m in r || exists o :: o in r && Overlap(m, o) && !Precedes(m, o)
    ensures entities == [] ==> r == []
  {
    var words := Words(utterance);
    var cands := EntityCandidates(utterance, words, entities, locale, threshold);
    var sorted := SortByStart(cands);
    Resolve(sorted, [])
  }

  /**
   * A surface text that, ignoring case, is a run of whole words of the
   * utterance is matched exactly (distance 0, accuracy 1) at its first such
   * run, which starts no later than the given one.
   */
  lemma ExactTextMatched(u: string, entity: string, option: string, t: string, threshold: real, w: Window)
    requires threshold < 1.0
    requires WordAligned(u, w) && Text.Lower(u[w.start..w.end]) == Text.Lower(t)
    ensures var m := MatchText(u, Words(u), entity, option, t, threshold);
      m.Some? && m.value.levenshtein == 0 && m.value.accuracy == 1.0 && m.value.start <= w.start &&
      Text.Lower(m.value.utteranceText) == Text.Lower(t)
  {
    var iw := ExactWindow(u, t, w);
    WindowsOfText(u, t);
    BestMatchExact(u, Windows(u, Words(u), |t|, 0), entity, option, t, threshold, iw);
  }

  /** Among windows ordered by start, one at distance 0 makes the match exact and no later than it. */
  lemma BestMatchExact(u: string, ws: seq<Window>, entity: string, option: string, source: string,
                       threshold: real, iw: nat)
    requires forall k :: 0 <= k < |ws| ==> WordAligned(u, ws[k]) && InBand(ws[k].end - ws[k].start, |source|)
    requires forall p, q :: 0 <= p < q < |ws| ==> ws[p].start <= ws[q].start
    requires iw < |ws| && WordAligned(u, ws[iw]) && Text.Lower(u[ws[iw].start..ws[iw].end]) == Text.Lower(source)
    requires threshold < 1.0
    ensures BestMatch(u, ws, entity, option, source, threshold).Some?
    ensures BestMatch(u, ws, entity, option, source, threshold).value.levenshtein == 0
    ensures BestMatch(u, ws, entity, option, source, threshold).value.accuracy == 1.0
    ensures BestMatch(u, ws, entity, option, source, threshold).value.start <= ws[iw].start
    ensures Text.Lower(BestMatch(u, ws, entity, option, source, threshold).value.utteranceText) == Text.Lower(source)
  {
    BestAligned(u, ws, source);
    assert SpanDistance(Text.Lower(u), Text.Lower(source), ws[iw]) == 0 by {
      FoldedSpanDistance(u, source, ws[iw]);
      LevenshteinZeroIffEqual(Text.Lower(u[ws[iw].start..ws[iw].end]), Text.Lower(source));
    }
    BestMatchChosen(u, ws, entity, option, source, threshold);
    var r := BestMatch(u, ws, entity, option, source, threshold);
    ExactTextSome(Text.Lower(u), Text.Lower(source), |source|, threshold, ws, iw, r);
    ExactTextScores(u, source, threshold, ws, iw, r.value);
  }

  /** The windows of a text lie within the folded utterance, in order of their starts. */
  lemma WindowsOfText(u: string, t: string)
    ensures forall k :: 0 <= k < |Windows(u, Words(u), |t|, 0)| ==>
      Windows(u, Words(u), |t|, 0)[k].start < Windows(u, Words(u), |t|, 0)[k].end <= |Text.Lower(u)|
    ensures forall p, q :: 0 <= p < q < |Windows(u, Words(u), |t|, 0)| ==>
      Windows(u, Words(u), |t|, 0)[p].start <= Windows(u, Words(u), |t|, 0)[q].start
  {
    BestAligned(u, Windows(u, Words(u), |t|, 0), t);
    WordsOrdered(u);
    WindowsByStart(u, Words(u), |t|, 0);
  }

  /** A result that is rejected only when the first closest span does not qualify exists when some span is at distance 0. */
  lemma ExactTextSome(lu: string, ls: string, n: nat, threshold: real, ws: seq<Window>, iw: nat, r: Option<EntityOccurrence>)
    requires forall k :: 0 <= k < |ws| ==> ws[k].start < ws[k].end <= |lu|
    requires iw < |ws| && SpanDistance(lu, ls, ws[iw]) == 0 && threshold < 1.0
    requires r.None? ==> Rejected(lu, ls, ws, n, threshold)
    ensures r.Some?
  {
    ClosestAtZero(lu, ls, ws, iw, n, threshold);
  }

  /** A valid occurrence at the chosen span, when span `iw` is at distance 0, is exact and starts no later than it. */
  lemma ExactTextScores(u: string, t: string, threshold: real, ws: seq<Window>, iw: nat, o: EntityOccurrence)
    requires forall k :: 0 <= k < |ws| ==> ws[k].start < ws[k].end <= |Text.Lower(u)|
    requires forall p, q :: 0 <= p < q < |ws| ==> ws[p].start <= ws[q].start
    requires iw < |ws| && SpanDistance(Text.Lower(u), Text.Lower(t), ws[iw]) == 0
    requires ValidOccurrence(u, threshold, o) && o.sourceText == t
    requires IsChosen(Text.Lower(u), Text.Lower(t), ws, Window(o.start, o.end))
    ensures o.levenshtein == 0 && o.accuracy == 1.0 && o.start <= ws[iw].start
    ensures Text.Lower(o.utteranceText) == Text.Lower(t)
  {
    ChosenAtZero(Text.Lower(u), Text.Lower(t), ws, Window(o.start, o.end), iw);
    FoldedSpanDistance(u, t, Window(o.start, o.end));
    LevenshteinZeroIffEqual(Text.Lower(o.utteranceText), Text.Lower(t));
    AccuracyOfExact(|t|, o.end - o.start);
  }

  /** When span `iw` is at distance 0, the chosen span is at distance 0 and starts no later, for spans ordered by start. */
  lemma ChosenAtZero(lu: string, ls: string, ws: seq<Window>, c: Window, iw: nat)
    requires forall k :: 0 <= k < |ws| ==> ws[k].start < ws[k].end <= |lu|
    requires forall p, q :: 0 <= p < q < |ws| ==> ws[p].start <= ws[q].start
    requires iw < |ws| && SpanDistance(lu, ls, ws[iw]) == 0
    requires IsChosen(lu, ls, ws, c)
    ensures c.start < c.end <= |lu| && SpanDistance(lu, ls, c) == 0 && c.start <= ws[iw].start
  {
    forall k | FirstClosest(lu, ls, ws, k)
      ensures SpanDistance(lu, ls, ws[k]) == 0 && ws[k].start <= ws[iw].start
    {
      // no span before `k` is as close as it, so `iw`, at distance 0, is not before it
      if k < iw {
        assert ws[k].start <= ws[iw].start;
      }
    }
  }

  /** Distance 0 scores accuracy 1. */
  lemma AccuracyOfExact(sourceLength: nat, spanLength: nat)
    requires sourceLength > 0 || spanLength > 0
    ensures Accuracy(0, sourceLength, spanLength) == 1.0
  {
  }

  /** A run of whole words equal, ignoring case, to the text is one of its windows; `iw` is its position. */
  lemma ExactWindow(u: string, t: string, w: Window) returns (iw: nat)
    requires WordAligned(u, w) && Text.Lower(u[w.start..w.end]) == Text.Lower(t)
    ensures iw < |Windows(u, Words(u), |t|, 0)| && Windows(u, Words(u), |t|, 0)[iw] == w
  {
    assert |u[w.start..w.end]| == |t|;
    WindowsExactly(u, w, |t|);
    var ws := Windows(u, Words(u), |t|, 0);
    iw :| 0 <= iw < |ws| && ws[iw] == w;
  }

  /** With a span at distance 0, the first closest span clears any threshold below 1, so the spans are not rejected. */
  lemma ClosestAtZero(lu: string, ls: string, ws: seq<Window>, iw: nat, n: nat, threshold: real)
    requires forall k :: 0 <= k < |ws| ==> ws[k].start < ws[k].end <= |lu|
    requires iw < |ws| && SpanDistance(lu, ls, ws[iw]) == 0 && threshold < 1.0
    ensures !Rejected(lu, ls, ws, n, threshold)
  {
    forall k | FirstClosest(lu, ls, ws, k)
      ensures threshold < Accuracy(SpanDistance(lu, ls, ws[k]), n, ws[k].end - ws[k].start)
    {
      // the first closest span is as close as span `iw`, hence exact
      AccuracyOfExact(n, ws[k].end - ws[k].start);
    }
  }

  /**
   * Such a text is reported at its exact match, or that match loses to an
   * overlapping reported occurrence that starts earlier, or at the same
   * place with an accuracy no lower.
   */
  lemma ExactTextReported(entities: seq<NamedEntity>, threshold: real, u: string, locale: string,
                          i: nat, j: nat, t: string, w: Window)
    requires i < |entities| && j < |entities[i].options|
    requires t in Bucket(entities[i].options[j].texts, locale)
    requires threshold < 1.0
    requires WordAligned(u, w) && Text.Lower(u[w.start..w.end]) == Text.Lower(t)
    ensures var m := MatchText(u, Words(u), entities[i].name, entities[i].options[j].name, t, threshold);
      var r := FindEntities(entities, threshold, u, locale);
      m.Some? && m.value.levenshtein == 0 && m.value.accuracy == 1.0 && m.value.start <= w.start &&
      (m.value in r || exists o :: (o in r && Overlap(m.value, o) &&
        (o.start < m.value.start || (o.start == m.value.start && o.accuracy == 1.0))))
  {
    ExactTextMatched(u, entities[i].name, entities[i].options[j].name, t, threshold, w);
    var m := MatchText(u, Words(u), entities[i].name, entities[i].options[j].name, t, threshold).value;
    var r := FindEntities(entities, threshold, u, locale);
    if m !in r {
      var o :| o in r && Overlap(m, o) && !Precedes(m, o);
      OccurrenceScores(u, threshold, o);
    }
  }

  /**
   * The match `c` of some surface text is accounted for by the occurrences
   * `ms`: there is none, it is one of them, or it overlaps one of them and
   * every one it overlaps goes before it.
   */
  predicate AccountedFor(ms: seq<EntityOccurrence>, c: Option<EntityOccurrence>) {
    || c.None?
    || c.value in ms
    || ((exists m :: m in ms && Overlap(c.value, m)) &&
        (forall m :: m in ms && Overlap(c.value, m) ==> Precedes(m, c.value)))
  }

  /**
   * What the finder reports is fixed by the matches of the registered texts:
   * when `ms` is a chain of such matches and every registered text's match is
   * accounted for by `ms`, the finder reports exactly `ms`.
   */
  lemma FindEntitiesExactly(entities: seq<NamedEntity>, threshold: real, u: string, locale: string,
                            ms: seq<EntityOccurrence>)
    requires Chain(ms) && NonEmptySpans(ms)
    requires forall m :: m in ms ==> IsSurfaceText(entities, m.entity, m.option, locale, m.sourceText)
    requires OwnMatches(u, Words(u), threshold, ms)
    requires forall i, j, t :: (0 <= i < |entities| && 0 <= j < |entities[i].options| &&
      t in Bucket(entities[i].options[j].texts, locale)) ==>
      AccountedFor(ms, MatchText(u, Words(u), entities[i].name, entities[i].options[j].name, t, threshold))
    ensures FindEntities(entities, threshold, u, locale) == ms
  {
    var r := FindEntities(entities, threshold, u, locale);
    var words := Words(u);
    forall k | 0 <= k < |r| ensures r[k].start < r[k].end {
      assert r[k] in r;
    }
    forall o | o in r ensures AccountedFor(ms, Some(o)) {
      var i, j :| 0 <= i < |entities| && 0 <= j < |entities[i].options| &&
        entities[i].name == o.entity && entities[i].options[j].name == o.option &&
        o.sourceText in Bucket(entities[i].options[j].texts, locale);
      assert MatchText(u, words, entities[i].name, entities[i].options[j].name, o.sourceText, threshold) == Some(o);
    }
    forall m | m in ms ensures m in r || exists o :: o in r && Overlap(m, o) && !Precedes(m, o) {
      var i, j :| 0 <= i < |entities| && 0 <= j < |entities[i].options| &&
        entities[i].name == m.entity && entities[i].options[j].name == m.option &&
        m.sourceText in Bucket(entities[i].options[j].texts, locale);
      assert MatchText(u, words, entities[i].name, entities[i].options[j].name, m.sourceText, threshold) == Some(m);
    }
    AccountedChains(ms, r);
  }

  /**
   * A chain `r` whose members are all accounted for by the chain `ms`, and
   * that keeps or beats each member of `ms`, is `ms`.
   */
  lemma AccountedChains(ms: seq<EntityOccurrence>, r: seq<EntityOccurrence>)
    requires Chain(ms) && NonEmptySpans(ms) && Chain(r) && NonEmptySpans(r)
    requires forall o :: o in r ==> AccountedFor(ms, Some(o))
    requires forall m :: m in ms ==> m in r || exists o :: o in r && Overlap(m, o) && !Precedes(m, o)
    ensures r == ms
  {
    // an occurrence of `r` overlapping `m` without going after it would be accounted for by `m` itself
    forall m | m in ms ensures m in r {
    }
    forall o | o in r ensures o in ms {
      assert AccountedFor(ms, Some(o));
      if o !in ms {
        var m :| m in ms && Overlap(o, m);
        OverlapInChain(r, o, m);
      }
    }
    ChainsEqual(r, ms);
  }

  /** Two overlapping members of a chain of non-empty spans are the same occurrence. */
  lemma OverlapInChain(s: seq<EntityOccurrence>, a: EntityOccurrence, b: EntityOccurrence)
    requires Chain(s) && NonEmptySpans(s)
    requires a in s && b in s && Overlap(a, b)
    ensures a == b
  {
    var p :| 0 <= p < |s| && s[p] == a;
    var q :| 0 <= q < |s| && s[q] == b;
  }

  /** Two chains of non-empty spans with the same members are the same sequence. */
  lemma {:induction false} ChainsEqual(a: seq<EntityOccurrence>, b: seq<EntityOccurrence>)
    requires Chain(a) && NonEmptySpans(a) && Chain(b) && NonEmptySpans(b)
    requires forall x :: x in a <==> x in b
    ensures a == b
    decreases |a| + |b|, |b|
  {
    if a != [] {
      assert a[0] in a;
      ChainHeads(a, b);
      ChainTail(a);
      ChainTail(b);
      forall x | x in a[1..] ensures x in b[1..] {
        ChainTailMember(a, b, x);
      }
      forall x | x in b[1..] ensures x in a[1..] {
        ChainTailMember(b, a, x);
      }
      ChainsEqual(a[1..], b[1..]);
      assert a == [a[0]] + a[1..] && b == [b[0]] + b[1..];
    } else if b != [] {
      ChainsEqual(b, a);
    }
  }

  /** The member of least start heads a chain, so two chains with the same members have the same head. */
  lemma ChainHeads(a: seq<EntityOccurrence>, b: seq<EntityOccurrence>)
    requires Chain(a) && NonEmptySpans(a) && Chain(b) && NonEmptySpans(b)
    requires forall x :: x in a <==> x in b
    requires a != [] && b != []
    ensures a[0] == b[0]
  {
    assert a[0] in a && b[0] in b;
    var k :| 0 <= k < |b| && b[k] == a[0];
    var p :| 0 <= p < |a| && a[p] == b[0];
    if k > 0 && p > 0 {
      assert false;
    }
  }

  /** What follows the head of a chain is a chain. */
  lemma ChainTail(a: seq<EntityOccurrence>)
    requires Chain(a) && NonEmptySpans(a) && a != []
    ensures Chain(a[1..]) && NonEmptySpans(a[1..])
  {
    forall i, j | 0 <= i < j < |a[1..]| ensures a[1..][i].end <= a[1..][j].start {
      assert a[1..][i] == a[i + 1] && a[1..][j] == a[j + 1];
    }
  }

  /** A member after the head of one chain is a member after the head of another chain with the same members and head. */
  lemma ChainTailMember(a: seq<EntityOccurrence>, b: seq<EntityOccurrence>, x: EntityOccurrence)
    requires Chain(a) && NonEmptySpans(a) && Chain(b) && NonEmptySpans(b)
    requires forall y :: y in a <==> y in b
    requires a != [] && b != [] && a[0] == b[0] && x in a[1..]
    ensures x in b[1..]
  {
    var i :| 0 <= i < |a[1..]| && a[1..][i] == x;
    assert a[i + 1] == x && a[0].end <= a[i + 1].start;
    assert x in a;
    var q :| 0 <= q < |b| && b[q] == x;
    assert q != 0;
    assert b[1..][q - 1] == x;
  }

  /**
   * A window strictly closer to the surface text than every other window,
   * scoring above the threshold, is where the text is matched.
   */
  lemma ClosestWindowMatched(u: string, entity: string, option: string, t: string, threshold: real, w: Window)
    requires WordAligned(u, w) && InBand(w.end - w.start, |t|)
    requires forall v :: WordAligned(u, v) && InBand(v.end - v.start, |t|) && v != w ==>
      SpanDistance(Text.Lower(u), Text.Lower(t), w) < SpanDistance(Text.Lower(u), Text.Lower(t), v)
    requires threshold < Accuracy(SpanDistance(Text.Lower(u), Text.Lower(t), w), |t|, w.end - w.start)
    ensures var m := MatchText(u, Words(u), entity, option, t, threshold);
      m.Some? && m.value.start == w.start && m.value.end == w.end
  {
    var ws := Windows(u, Words(u), |t|, 0);
    WindowsExactly(u, w, |t|);
    WindowsOfText(u, t);
    UniqueClosest(Text.Lower(u), Text.Lower(t), ws, w, |t|, threshold);
    MatchTextChosen(u, Words(u), entity, option, t, threshold);
  }

  /** When one span is strictly closest and scores above the threshold, it is the one chosen and the spans are not rejected. */
  lemma UniqueClosest(lu: string, ls: string, ws: seq<Window>, w: Window, n: nat, threshold: real)
    requires forall k :: 0 <= k < |ws| ==> ws[k].start < ws[k].end <= |lu|
    requires w in ws
    requires forall k :: 0 <= k < |ws| && ws[k] != w ==> SpanDistance(lu, ls, w) < SpanDistance(lu, ls, ws[k])
    requires threshold < Accuracy(SpanDistance(lu, ls, w), n, w.end - w.start)
    ensures !Rejected(lu, ls, ws, n, threshold)
    ensures forall c :: IsChosen(lu, ls, ws, c) ==> c == w
  {
    var iw :| 0 <= iw < |ws| && ws[iw] == w;
    forall i | FirstClosest(lu, ls, ws, i) ensures ws[i] == w {
      assert SpanDistance(lu, ls, ws[i]) <= SpanDistance(lu, ls, ws[iw]);
    }
  }

  // ---------------------------------------------------------------------------
  // Scores of the fixture strings

  /** Texts that agree, case folded, everywhere but at `k` are one edit apart once folded. */
  lemma {:induction false} FoldedOneSubstitution(t: string, s: string, k: nat)
    requires |t| == |s| && k < |t| && Text.LowerChar(t[k]) != Text.LowerChar(s[k])
    requires forall i :: 0 <= i < |t| && i != k ==> Text.LowerChar(t[i]) == Text.LowerChar(s[i])
    ensures Levenshtein(Text.Lower(t), Text.Lower(s)) == 1
  {
    LevenshteinOneSubstitution(Text.Lower(t), Text.Lower(s), k);
  }

  /** Texts that agree, case folded, everywhere but at `k1` and `k2` are two edits apart once folded. */
  lemma {:induction false} FoldedTwoSubstitutions(t: string, s: string, k1: nat, k2: nat)
    requires |t| == |s| && k1 < k2 < |t|
    requires Text.LowerChar(t[k1]) != Text.LowerChar(s[k1]) && Text.LowerChar(t[k2]) != Text.LowerChar(s[k2])
    requires forall i :: 0 <= i < |t| && i != k1 && i != k2 ==> Text.LowerChar(t[i]) == Text.LowerChar(s[i])
    ensures Levenshtein(Text.Lower(t), Text.Lower(s)) == 2
  {
    LevenshteinTwoSubstitutions(Text.Lower(t), Text.Lower(s), k1, k2);
  }

  /** `spederman` and `Spiderman`, case folded, differ at the third letter only. */
  lemma {:induction false} SpedermanLetters(t: string, s: string)
    requires t == "spederman" && s == "Spiderman"
    ensures |t| == |s| == 9 && Text.LowerChar(t[2]) != Text.LowerChar(s[2])
    ensures forall i :: 0 <= i < |t| && i != 2 ==> Text.LowerChar(t[i]) == Text.LowerChar(s[i])
  {
  }

  /** `spererman` and `Spiderman`, case folded, differ at the third and fourth letters only. */
  lemma {:induction false} SperermanLetters(t: string, s: string)
    requires t == "spererman" && s == "Spiderman"
    ensures |t| == |s| == 9
    ensures Text.LowerChar(t[2]) != Text.LowerChar(s[2]) && Text.LowerChar(t[3]) != Text.LowerChar(s[3])
    ensures forall i :: 0 <= i < |t| && i != 2 && i != 3 ==> Text.LowerChar(t[i]) == Text.LowerChar(s[i])
  {
  }

  /** A window reading `spederman` for the text `Spiderman` is one edit away and scores 8/9. */
  lemma {:induction false} SpedermanScore(u: string, threshold: real, o: EntityOccurrence)
    requires ValidOccurrence(u, threshold, o)
    requires o.utteranceText == "spederman" && o.sourceText == "Spiderman"
    ensures o.levenshtein == 1 && o.accuracy == 8.0 / 9.0
  {
    SpedermanLetters(o.utteranceText, o.sourceText);
    FoldedOneSubstitution(o.utteranceText, o.sourceText, 2);
  }

  /** A window reading `spererman` is two edits from `Spiderman`: 7/9, which a 0.8 threshold rejects. */
  lemma {:induction false} SperermanRejected(u: string, o: EntityOccurrence)
    requires o.utteranceText == "spererman" && o.sourceText == "Spiderman"
    ensures !ValidOccurrence(u, 0.8, o)
  {
    SperermanLetters(o.utteranceText, o.sourceText);
    FoldedTwoSubstitutions(o.utteranceText, o.sourceText, 2, 3);
  }

  /**
   * Case folded, `s` is `t` with its last character substituted and one more
   * appended: two edits.
   */
  lemma {:induction false} FoldedSubstituteAndAppend(t: string, s: string)
    requires |t| >= 1 && |s| == |t| + 1
    requires forall i :: 0 <= i < |t| - 1 ==> Text.LowerChar(t[i]) == Text.LowerChar(s[i])
    requires Text.LowerChar(t[|t| - 1]) != Text.LowerChar(s[|t| - 1])
    requires Text.LowerChar(t[|t| - 1]) != Text.LowerChar(s[|t|])
    ensures Levenshtein(Text.Lower(t), Text.Lower(s)) == 2
  {
    var a, b := Text.Lower(t), Text.Lower(s);
    assert a[..|a| - 1] == b[..|a| - 1];
    LevenshteinSubstituteAndAppend(a, b);
  }

  /** `the` and `Thor`, case folded: `th` shared, then `e` against both `o` and `r`. */
  lemma {:induction false} TheThorLetters(t: string, s: string)
    requires t == "the" && s == "Thor"
    ensures |t| == 3 && |s| == 4
    ensures forall i :: 0 <= i < 2 ==> Text.LowerChar(t[i]) == Text.LowerChar(s[i])
    ensures Text.LowerChar(t[2]) != Text.LowerChar(s[2]) && Text.LowerChar(t[2]) != Text.LowerChar(s[3])
  {
  }

  /**
   * The word `the` is two edits from `Thor` and scores exactly 0.5, so the
   * default threshold of 0.5 must reject it for the several-entities case
   * to report only two occurrences.
   */
  lemma {:induction false} TheIsNotThor(u: string, o: EntityOccurrence)
    requires o.utteranceText == "the" && o.sourceText == "Thor"
    ensures !ValidOccurrence(u, 0.5, o)
  {
    TheThorLetters(o.utteranceText, o.sourceText);
    FoldedSubstituteAndAppend(o.utteranceText, o.sourceText);
  }
}
