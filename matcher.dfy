/**
 * The fuzzy label-to-position matcher of the OCR path: finds the recognised text box
 * that best matches a label taken from the markup, skipping boxes already claimed.
 *
 * A position's score is the larger of two ratios: the substring ratio
 * (label length over text length, when either contains the other) and the word
 * overlap ratio (shared words over label words). The first position with the
 * strictly highest score wins, and only if that score exceeds 0.3.
 */
module Matcher {
  import opened Geometry
  import opened Text

  /** One recognised text box: its text and its rectangle in page units. */
  datatype TextPosition = TextPosition(text: string, rect: Rect)

  /** The label as compared: trailing colons and asterisks dropped, stripped, lower-cased. */
  function CleanLabel(labelText: string): string
  {
    Lower(Strip(RStripChars(labelText, {':', '*'})))
  }

  /** The recognised text as compared: lower-cased and stripped. */
  function CleanText(text: string): string
  {
    Strip(Lower(text))
  }

  function WordSet(s: string): set<string>
  {
    set w | w in Words(s)
  }

  /** A non-empty run without whitespace has itself as its only word. */
  lemma WordSetOfWord(w: string)
    requires w != [] && forall i :: 0 <= i < |w| ==> !IsSpace(w[i])
    ensures WordSet(w) == {w}
  {
    WordsOfWord(w);
  }

  /** A word followed by a space adds itself to the words of the rest. */
  lemma WordSetCons(w: string, rest: string)
    requires w != [] && forall i :: 0 <= i < |w| ==> !IsSpace(w[i])
    ensures WordSet(w + [' '] + rest) == {w} + WordSet(rest)
  {
    WordsCons(w, rest);
  }

  /** Label length over text length (at least 1), when one contains the other; 0 otherwise. */
  function SubstringScore(lc: string, oc: string): real
  {
    if ContainsSub(oc, lc) || ContainsSub(lc, oc) then
      |lc| as real / (if |oc| > 1 then |oc| else 1) as real
    else 0.0
  }

  /** Shared words over label words, when they share one; 0 otherwise. */
  function WordScore(lc: string, oc: string): real
  {
    var labelWords := WordSet(lc);
    var common := labelWords * WordSet(oc);
    if |common| >= 1 && |labelWords| > 0 then |common| as real / |labelWords| as real else 0.0
  }

  /** The score a position reaches: the better of the two ratios. */
  function PositionScore(lc: string, oc: string): (score: real)
    ensures score >= 0.0
    ensures score >= SubstringScore(lc, oc) && score >= WordScore(lc, oc)
    ensures score == SubstringScore(lc, oc) || score == WordScore(lc, oc)
  {
    Max(SubstringScore(lc, oc), WordScore(lc, oc))
  }

  /** The score of every position, in order. */
  function Scores(lc: string, positions: seq<TextPosition>): (scores: seq<real>)
    ensures |scores| == |positions|
    ensures forall j :: 0 <= j < |scores| ==> scores[j] >= 0.0
  {
    seq(|positions|, j requires 0 <= j < |positions| => PositionScore(lc, CleanText(positions[j].text)))
  }

  predicate NonNegative(scores: seq<real>)
  {
    forall j :: 0 <= j < |scores| ==> scores[j] >= 0.0
  }

  /** The running best after looking at the first `n` positions. */
  datatype Best = Best(index: Option<nat>, score: real)

  /** The scan over positions 0..n-1: an unused position replaces the best only with a strictly
      higher score. */
  function BestOf(scores: seq<real>, used: set<nat>, n: nat): (b: Best)
    requires n <= |scores|
    ensures b.index.Some? ==> b.index.value < n && b.index.value !in used
  {
    if n == 0 then Best(None, 0.0)
    else
      var b := BestOf(scores, used, n - 1);
      if n - 1 in used || scores[n - 1] <= b.score then b
      else Best(Some(n - 1), scores[n - 1])
  }

  /** The position the matcher reports for a label, if any. */
  function MatchOf(labelText: string, positions: seq<TextPosition>, used: set<nat>): (m: Option<nat>)
    ensures m.Some? ==> m.value < |positions| && m.value !in used
  {
    var lc := CleanLabel(labelText);
    if |lc| < 2 then None
    else
      var b := BestOf(Scores(lc, positions), used, |positions|);
      if b.index.Some? && b.score > 0.3 then b.index else None
  }

  /** Finds the best unused position for a label, updating the best after each ratio in turn. */
  method FindLabelPosition(labelText: string, positions: seq<TextPosition>, used: set<nat>)
    returns (m: Option<nat>)
    ensures m == MatchOf(labelText, positions, used)
  {
    var lc := CleanLabel(labelText);
    if |lc| < 2 {
      return None;
    }
    var bestMatch: Option<nat> := None;
    var bestScore := 0.0;
    ghost var scores := Scores(lc, positions);
    for i := 0 to |positions|
      invariant Best(bestMatch, bestScore) == BestOf(scores, used, i)
      invariant bestScore >= 0.0
    {
      if i in used {
        continue;
      }
      var oc := CleanText(positions[i].text);
      ghost var before := Best(bestMatch, bestScore);
      assert scores[i] == Max(SubstringScore(lc, oc), WordScore(lc, oc));
      if ContainsSub(oc, lc) || ContainsSub(lc, oc) {
        var score := |lc| as real / (if |oc| > 1 then |oc| else 1) as real;
        if score > bestScore {
          bestScore := score;
          bestMatch := Some(i);
        }
      }
      assert bestScore == Max(before.score, SubstringScore(lc, oc));
      assert bestMatch == if SubstringScore(lc, oc) > before.score then Some(i) else before.index;
      var labelWords := WordSet(lc);
      var common := labelWords * WordSet(oc);
      if |common| >= 1 && |labelWords| > 0 {
        var score := |common| as real / |labelWords| as real;
        if score > bestScore {
          bestScore := score;
          bestMatch := Some(i);
        }
      }
      assert bestScore == Max(before.score, scores[i]);
    }
    if bestMatch.Some? && bestScore > 0.3 {
      return bestMatch;
    }
    return None;
  }

  // ---------------------------------------------------------------------------
  // What the scan computes.

  /** The scan keeps the first unused position with the highest score, or nothing when every
      unused position scores 0. */
  lemma {:induction false} BestOfIsFirstMaximum(scores: seq<real>, used: set<nat>, n: nat)
    requires n <= |scores| && NonNegative(scores)
    ensures var b := BestOf(scores, used, n);
      (b.index.None? ==> b.score == 0.0 && forall j :: 0 <= j < n && j !in used ==> scores[j] == 0.0) &&
      (b.index.Some? ==>
        b.score == scores[b.index.value] &&
        (forall j :: 0 <= j < n && j !in used ==> scores[j] <= b.score) &&
        (forall j :: 0 <= j < b.index.value && j !in used ==> scores[j] < b.score))
  {
    if n > 0 {
      BestOfIsFirstMaximum(scores, used, n - 1);
    }
  }

  /** The matcher's result, characterised without the scan: a reported position is unused, in
      range, scores above 0.3, scores at least as much as every unused position and more than
      every earlier one; nothing is reported exactly when the cleaned label is shorter than 2
      characters or no unused position scores above 0.3. */
  lemma MatchIsFirstBest(labelText: string, positions: seq<TextPosition>, used: set<nat>)
    ensures var scores := Scores(CleanLabel(labelText), positions);
      var m := MatchOf(labelText, positions, used);
      (m.Some? ==>
        m.value < |positions| && m.value !in used && scores[m.value] > 0.3 &&
        (forall j :: 0 <= j < |positions| && j !in used ==> scores[j] <= scores[m.value]) &&
        (forall j :: 0 <= j < m.value && j !in used ==> scores[j] < scores[m.value])) &&
      (m.None? <==> |CleanLabel(labelText)| < 2 || forall j :: 0 <= j < |positions| && j !in used ==> scores[j] <= 0.3)
  {
    var scores := Scores(CleanLabel(labelText), positions);
    BestOfIsFirstMaximum(scores, used, |positions|);
  }

  /** A label whose cleaned form is shorter than 2 characters never matches. */
  lemma ShortLabelNeverMatches(labelText: string, positions: seq<TextPosition>, used: set<nat>)
    requires |CleanLabel(labelText)| < 2
    ensures MatchOf(labelText, positions, used) == None
  {
  }

  // ---------------------------------------------------------------------------
  // The quirks of the scoring.

  /** An empty recognised text occurs in every label, so it scores the label's length. */
  lemma EmptyTextScoresLabelLength(lc: string)
    ensures PositionScore(lc, []) == |lc| as real
  {
    assert OccursAt(lc, [], 0);
    assert Words([]) == [];
    assert WordSet([]) == {};
  }

  /** No position scores more than the label's length (for a label of 2 or more characters). */
  lemma ScoreAtMostLabelLength(lc: string, oc: string)
    requires |lc| >= 2
    ensures PositionScore(lc, oc) <= |lc| as real
  {
    WordScoreAtMostOne(lc, oc);
    QuotientAtMost(|lc| as real, (if |oc| > 1 then |oc| else 1) as real);
  }

  lemma QuotientAtMost(n: real, d: real)
    requires n >= 0.0 && d >= 1.0
    ensures n / d <= n
  {
    var q := n / d;
    assert q * d == n;
    assert q * (d - 1.0) >= 0.0;
  }

  /** Consequently an unused position with empty text guarantees a match for any label
      that cleans to 2 or more characters: the matched position scores the label's length,
      the highest score possible, and is the first unused position to do so; it is the
      empty one or an earlier one. */
  lemma EmptyTextAlwaysMatches(labelText: string, positions: seq<TextPosition>, used: set<nat>, j: nat)
    requires j < |positions| && j !in used
    requires CleanText(positions[j].text) == []
    requires |CleanLabel(labelText)| >= 2
    ensures var lc := CleanLabel(labelText);
      var scores := Scores(lc, positions);
      var m := MatchOf(labelText, positions, used);
      m.Some? && m.value <= j && scores[m.value] == |lc| as real &&
      forall i :: 0 <= i < m.value && i !in used ==> scores[i] < |lc| as real
  {
    var lc := CleanLabel(labelText);
    var scores := Scores(lc, positions);
    EmptyTextScoresLabelLength(lc);
    MatchIsFirstBest(labelText, positions, used);
    assert scores[j] == |lc| as real;
    var m := MatchOf(labelText, positions, used).value;
    ScoreAtMostLabelLength(lc, CleanText(positions[m].text));
    assert scores[m] == |lc| as real;
  }

  /** A text that is a shorter non-empty part of the label scores above 1. */
  lemma SubstringScoreAboveOne(lc: string, oc: string)
    requires ContainsSub(lc, oc) && 0 < |oc| < |lc|
    ensures PositionScore(lc, oc) > 1.0
  {
    var d := (if |oc| > 1 then |oc| else 1) as real;
    assert d == |oc| as real;
    assert |lc| as real > d > 0.0;
    assert |lc| as real / d > 1.0;
  }

  /** The word ratio never exceeds 1. */
  lemma WordScoreAtMostOne(lc: string, oc: string)
    ensures 0.0 <= WordScore(lc, oc) <= 1.0
  {
    var labelWords := WordSet(lc);
    var common := labelWords * WordSet(oc);
    assert common <= labelWords;
    SubsetCardinality(common, labelWords);
    if |common| >= 1 && |labelWords| > 0 {
      RatioAtMostOne(|common| as real, |labelWords| as real);
    }
  }

  lemma RatioAtMostOne(x: real, y: real)
    requires 0.0 <= x <= y && y > 0.0
    ensures 0.0 <= x / y <= 1.0
  {
    var q := x / y;
    assert q * y == x;
    assert (1.0 - q) * y == y - x;
  }

  lemma {:induction false} SubsetCardinality(a: set<string>, b: set<string>)
    requires a <= b
    ensures |a| <= |b|
    decreases |b|
  {
    if b != {} {
      var x :| x in b;
      SubsetCardinality(a - {x}, b - {x});
    }
  }
}
