/**
 * Hand-written scanners for the two "label followed by a colon" patterns.
 *
 * Both patterns have the shape `[class]+ ... :` where every character that may stand
 * between the label and the colon (`*`, whitespace) is itself in the class and `:` is
 * not. A match starting at `p` therefore exists exactly when the maximal run of class
 * characters from `p` is non-empty and stops at a `:`; the scan then resumes after the
 * colon (the native pattern also swallows the whitespace that follows the colon).
 */
module LabelScan {
  import opened Text

  /** MarkdownLabel: letters, whitespace, / ' ( ) [ ] # * digits and `.` (the OCR-markup pattern).
      NativeLabel: letters, whitespace, / ' ( ) # * (the native-text pattern; no digits). */
  datatype Pattern = MarkdownLabel | NativeLabel

  predicate InClass(pat: Pattern, c: char)
  {
    match pat
    case MarkdownLabel =>
      IsAsciiLetter(c) || IsSpace(c) || IsAsciiDigit(c) ||
      c == '/' || c == '\'' || c == '(' || c == ')' || c == '[' || c == ']' ||
      c == '#' || c == '*' || c == '.'
    case NativeLabel =>
      IsAsciiLetter(c) || IsSpace(c) ||
      c == '/' || c == '\'' || c == '(' || c == ')' || c == '#' || c == '*'
  }

  /** One match: the label run starts at `start` and its colon sits at `colon`. */
  datatype Span = Span(start: nat, colon: nat)

  /** The end of the maximal run of class characters that starts at `p`. */
  function RunEnd(line: string, p: nat, pat: Pattern): (e: nat)
    requires p <= |line|
    ensures p <= e <= |line|
    ensures forall i :: p <= i < e ==> InClass(pat, line[i])
    ensures e < |line| ==> !InClass(pat, line[e])
    decreases |line| - p
  {
    if p == |line| || !InClass(pat, line[p]) then p else RunEnd(line, p + 1, pat)
  }

  /** The pattern matches at `p`. */
  predicate MatchAt(line: string, p: nat, pat: Pattern)
  {
    p < |line| &&
    var e := RunEnd(line, p, pat);
    e > p && e < |line| && line[e] == ':'
  }

  /** A well-formed match: class characters from `start` up to a colon. */
  predicate IsMatch(line: string, m: Span, pat: Pattern)
  {
    m.start < m.colon < |line| && line[m.colon] == ':' &&
    forall i :: m.start <= i < m.colon ==> InClass(pat, line[i])
  }

  /** Where the scan continues after a match whose colon is at `colon`. */
  function ResumeAt(line: string, colon: nat, pat: Pattern): (q: nat)
    requires colon < |line|
    ensures colon < q <= |line|
  {
    match pat
    case MarkdownLabel => colon + 1
    case NativeLabel => |line| - |LStrip(line[colon + 1..])|
  }

  /** All matches at or after `from`, leftmost first, as finditer/findall report them. */
  function Scan(line: string, from: nat, pat: Pattern): (ms: seq<Span>)
    requires from <= |line|
    ensures forall k :: 0 <= k < |ms| ==> IsMatch(line, ms[k], pat) && from <= ms[k].start
    ensures forall k, l :: 0 <= k < l < |ms| ==> ms[k].colon < ms[l].start
    decreases |line| - from
  {
    if from == |line| then []
    else if MatchAt(line, from, pat) then
      var e := RunEnd(line, from, pat);
      [Span(from, e)] + Scan(line, ResumeAt(line, e, pat), pat)
    else Scan(line, from + 1, pat)
  }

  /** The scan is leftmost: it reports a match at the first matching position and finds nothing
      only when no position matches; each reported run is maximal (its colon is the first
      non-class character). */
  lemma ScanIsLeftmost(line: string, from: nat, pat: Pattern)
    requires from <= |line|
    ensures Scan(line, from, pat) == [] <==> forall p :: from <= p ==> !MatchAt(line, p, pat)
    ensures Scan(line, from, pat) != [] ==>
      var m := Scan(line, from, pat)[0];
      MatchAt(line, m.start, pat) && m.colon == RunEnd(line, m.start, pat) &&
      forall p :: from <= p < m.start ==> !MatchAt(line, p, pat)
  {
    ScanEmptyIff(line, from, pat);
    ScanFirst(line, from, pat);
  }

  /** The scan finds nothing iff no position from `from` on matches. */
  lemma {:induction false} ScanEmptyIff(line: string, from: nat, pat: Pattern)
    requires from <= |line|
    ensures Scan(line, from, pat) == [] <==> forall p :: from <= p ==> !MatchAt(line, p, pat)
    decreases |line| - from
  {
    if from == |line| {
    } else if MatchAt(line, from, pat) {
      ScanAtMatch(line, from, pat);
    } else {
      ScanSkip(line, from, pat);
      ScanEmptyIff(line, from + 1, pat);
      NoMatchFromNext(line, from, pat);
    }
  }

  /** The first match reported is a maximal run at the leftmost matching position. */
  lemma {:induction false} ScanFirst(line: string, from: nat, pat: Pattern)
    requires from <= |line|
    ensures Scan(line, from, pat) != [] ==>
      var m := Scan(line, from, pat)[0];
      MatchAt(line, m.start, pat) && m.colon == RunEnd(line, m.start, pat) &&
      forall p :: from <= p < m.start ==> !MatchAt(line, p, pat)
    decreases |line| - from
  {
    if from == |line| {
    } else if MatchAt(line, from, pat) {
      ScanAtMatch(line, from, pat);
    } else {
      ScanSkip(line, from, pat);
      ScanFirst(line, from + 1, pat);
    }
  }

  /** A match at `from` is the first one reported. */
  lemma ScanAtMatch(line: string, from: nat, pat: Pattern)
    requires from < |line| && MatchAt(line, from, pat)
    ensures Scan(line, from, pat) != [] && Scan(line, from, pat)[0] == Span(from, RunEnd(line, from, pat))
  {
  }

  /** Without a match at `from`, the scan goes on at the next position. */
  lemma ScanSkip(line: string, from: nat, pat: Pattern)
    requires from < |line| && !MatchAt(line, from, pat)
    ensures Scan(line, from, pat) == Scan(line, from + 1, pat)
  {
  }

  lemma NoMatchFromNext(line: string, from: nat, pat: Pattern)
    requires !MatchAt(line, from, pat)
    ensures (forall p :: from <= p ==> !MatchAt(line, p, pat)) <==> (forall p :: from + 1 <= p ==> !MatchAt(line, p, pat))
  {
  }

  /** A line without a colon has no label match. */
  lemma NoColonNoMatch(line: string, from: nat, pat: Pattern)
    requires from <= |line|
    ensures ':' !in line ==> Scan(line, from, pat) == []
  {
    var ms := Scan(line, from, pat);
    assert ms != [] ==> line[ms[0].colon] == ':';
  }

  /** RunEnd is the first position that is not a class character. */
  lemma {:induction false} RunEndAt(line: string, p: nat, e: nat, pat: Pattern)
    requires p <= e <= |line|
    requires forall i :: p <= i < e ==> InClass(pat, line[i])
    requires e < |line| ==> !InClass(pat, line[e])
    ensures RunEnd(line, p, pat) == e
    decreases e - p
  {
    if p < e {
      RunEndAt(line, p + 1, e, pat);
    }
  }
}
