/**
 * The markdown field extractor of the OCR path: turns one page of the remote OCR
 * service's markup into an ordered list of unplaced field candidates (checkbox options
 * and colon-terminated text labels), filtered by the source's noise heuristics.
 */
module Markdown {
  import opened Geometry
  import opened Text
  import opened LabelScan

  /** An unplaced, typed field hypothesis. */
  datatype Candidate = Candidate(kind: Kind, labelText: string)

  /** Plain checkbox glyphs: U+25A1, U+2610, U+2611, U+2612, U+25A2, U+25FB, U+25EF, U+25A0. */
  const CheckboxChars: seq<string> :=
    ["\U{25A1}", "\U{2610}", "\U{2611}", "\U{2612}", "\U{25A2}", "\U{25FB}", "\U{25EF}", "\U{25A0}"]

  /** The same glyphs after a UTF-8 / code-page mis-decoding. */
  const CheckboxEncoded: seq<string> :=
    ["\U{0393}\U{00FF}\U{00E9}", "\U{0393}\U{00FF}\U{00ED}", "\U{0393}\U{00FB}\U{00ED}",
     "\U{0393}\U{00FB}\U{00E1}", "\U{0393}\U{00FF}\U{00C9}"]

  const AllGlyphs: seq<string> := CheckboxChars + CheckboxEncoded

  /** Fragments that mark instructional prose rather than a form label. */
  const SkipKeywords: seq<string> :=
    ["NOTE:", "---", "http", "sfhp.org", "1(", "Methods:", "Services:", "values.", "below:", "service."]

  predicate NonEmptyStrings(glyphs: seq<string>)
  {
    forall k :: 0 <= k < |glyphs| ==> |glyphs[k]| > 0
  }

  lemma AllGlyphsNonEmpty()
    ensures NonEmptyStrings(AllGlyphs) && |AllGlyphs| == 13
  {
  }

  // ---------------------------------------------------------------------------
  // Specification of the extractor, one fold per loop of the source.

  /** `option.split(g)[0].strip()` for every glyph in turn that still occurs in the option. */
  function CutAtGlyphs(option: string, glyphs: seq<string>): string
    requires NonEmptyStrings(glyphs)
  {
    if glyphs == [] then option
    else
      var o := CutAtGlyphs(option, glyphs[..|glyphs| - 1]);
      var g := glyphs[|glyphs| - 1];
      if ContainsSub(o, g) then Strip(SplitOn(o, g)[0]) else o
  }

  lemma CutAtGlyphsStep(option: string, glyphs: seq<string>, h: nat)
    requires NonEmptyStrings(glyphs) && h < |glyphs|
    ensures var o := CutAtGlyphs(option, glyphs[..h]);
      CutAtGlyphs(option, glyphs[..h + 1]) == if ContainsSub(o, glyphs[h]) then Strip(SplitOn(o, glyphs[h])[0]) else o
  {
    assert glyphs[..h + 1][..h] == glyphs[..h];
  }

  /** No checkbox glyph holds a whitespace character. */
  lemma GlyphsHaveNoSpace()
    ensures forall k :: 0 <= k < |AllGlyphs| ==> NoSpace(AllGlyphs[k])
  {
  }

  /** A string in which no checkbox glyph occurs. */
  predicate GlyphFree(s: string)
  {
    forall k :: 0 <= k < |AllGlyphs| ==> !ContainsSub(s, AllGlyphs[k])
  }

  /** Position `n` of `option` is followed by whitespace only, up to an occurrence of one of `glyphs`. */
  predicate CutBefore(option: string, n: nat, glyphs: seq<string>)
  {
    exists k: nat, j: nat :: k < |glyphs| && n <= j <= |option| && OccursAt(option, glyphs[k], j) &&
      forall x :: n <= x < j ==> IsSpace(option[x])
  }

  /** One cut: the text before the first occurrence of `g`, stripped, is a prefix of the text
      that ends, up to whitespace, right at that occurrence, and holds no `g`. */
  lemma CutOnce(o: string, g: string)
    requires g != [] && FindFrom(o, g, 0).Some?
    requires o == [] || !IsSpace(o[0])
    ensures var i := FindFrom(o, g, 0).value;
      var r := Strip(SplitOn(o, g)[0]);
      |r| <= i && r == o[..|r|] && (r == [] || !IsSpace(r[0])) && !ContainsSub(r, g) &&
      forall x :: |r| <= x < i ==> IsSpace(o[x])
  {
    var i := FindFrom(o, g, 0).value;
    var p := o[..i];
    assert SplitOn(o, g)[0] == p;
    assert LStrip(p) == p;
    var r := RStrip(p);
    RStripSpec(p);
    NoOccurrenceBeforeFirst(o, g, i);
    if ContainsSub(r, g) {
      ContainsInSlice(p, 0, |r|, g);
    }
  }

  /** One step of the glyph cut, stated against the original option. */
  lemma CutStep(option: string, o: string, init: seq<string>, g: string)
    requires g != [] && FindFrom(o, g, 0).Some?
    requires |o| <= |option| && o == option[..|o|] && (o == [] || !IsSpace(o[0]))
    requires forall k :: 0 <= k < |init| ==> !ContainsSub(o, init[k])
    ensures var r := Strip(SplitOn(o, g)[0]);
      |r| <= |option| && r == option[..|r|] && (r == [] || !IsSpace(r[0])) &&
      (forall k :: 0 <= k < |init| ==> !ContainsSub(r, init[k])) && !ContainsSub(r, g) &&
      CutBefore(option, |r|, init + [g])
  {
    var r := Strip(SplitOn(o, g)[0]);
    CutOnce(o, g);
    var i := FindFrom(o, g, 0).value;
    forall k | 0 <= k < |init| ensures !ContainsSub(r, init[k]) {
      if ContainsSub(r, init[k]) {
        ContainsInSlice(o, 0, |r|, init[k]);
      }
    }
    assert OccursAt(option[0..|o|], g, i);
    OccursInSlice(option, 0, |o|, g, i);
    forall x | |r| <= x < i ensures IsSpace(option[x]) {
      assert option[x] == o[x];
    }
    assert (init + [g])[|init|] == g;
  }

  /** The glyph cut keeps a prefix of the option that starts with a non-space, holds none of the
      glyphs, and is either the whole option or ends, up to whitespace, right before a glyph. */
  lemma {:induction false} CutAtGlyphsSpec(option: string, glyphs: seq<string>)
    requires NonEmptyStrings(glyphs)
    requires option == [] || !IsSpace(option[0])
    ensures var r := CutAtGlyphs(option, glyphs);
      |r| <= |option| && r == option[..|r|] && (r == [] || !IsSpace(r[0])) &&
      (forall k :: 0 <= k < |glyphs| ==> !ContainsSub(r, glyphs[k])) &&
      (r == option || CutBefore(option, |r|, glyphs))
  {
    if glyphs != [] {
      var init := glyphs[..|glyphs| - 1];
      var g := glyphs[|glyphs| - 1];
      assert glyphs == init + [g];
      CutAtGlyphsSpec(option, init);
      var o := CutAtGlyphs(option, init);
      var r := CutAtGlyphs(option, glyphs);
      FindIffContains(o, g);
      if ContainsSub(o, g) {
        CutStep(option, o, init, g);
      } else if o != option {
        var k: nat, j: nat :| k < |init| && |o| <= j <= |option| && OccursAt(option, init[k], j) &&
          forall x :: |o| <= x < j ==> IsSpace(option[x]);
        assert glyphs[k] == init[k];
      }
      forall k | 0 <= k < |glyphs| ensures !ContainsSub(r, glyphs[k]) {
        if k < |init| {
          assert glyphs[k] == init[k];
        }
      }
    }
  }

  /** The cleaned text of one segment that followed a checkbox glyph. */
  function CleanOption(part: string): string
  {
    AllGlyphsNonEmpty();
    Collapse(CutAtGlyphs(Strip(part), AllGlyphs))
  }

  /** A cleaned option is the collapsed text of a prefix of the stripped segment: the whole
      segment, or the part that ends, up to whitespace, right before a checkbox glyph. It holds
      no checkbox glyph. */
  lemma CleanOptionSpec(part: string)
    ensures var o := Strip(part);
      var c := CutAtGlyphs(o, AllGlyphs);
      CleanOption(part) == Collapse(c) && |c| <= |o| && c == o[..|c|] &&
      (c == o || CutBefore(o, |c|, AllGlyphs)) && GlyphFree(CleanOption(part))
  {
    var o := Strip(part);
    StripEnds(part);
    CutAtGlyphsSpec(o, AllGlyphs);
    var c := CutAtGlyphs(o, AllGlyphs);
    GlyphsHaveNoSpace();
    forall k | 0 <= k < |AllGlyphs| ensures !ContainsSub(CleanOption(part), AllGlyphs[k]) {
      if ContainsSub(Collapse(c), AllGlyphs[k]) {
        CollapseOccurs(c, AllGlyphs[k]);
      }
    }
  }

  /** A prefix of a glyph-free string is glyph-free. */
  lemma TruncateGlyphFree(s: string, n: nat)
    requires GlyphFree(s)
    ensures GlyphFree(Truncate(s, n))
  {
    var t := Truncate(s, n);
    forall k | 0 <= k < |AllGlyphs| ensures !ContainsSub(t, AllGlyphs[k]) {
      if ContainsSub(t, AllGlyphs[k]) {
        ContainsInSlice(s, 0, |t|, AllGlyphs[k]);
      }
    }
  }

  function Truncate(s: string, n: nat): (r: string)
  {
    if |s| <= n then s else s[..n]
  }

  /** Checkbox candidates for the segments that followed one glyph. */
  function OptionCandidates(parts: seq<string>): seq<Candidate>
  {
    if parts == [] then []
    else
      var o := CleanOption(parts[|parts| - 1]);
      OptionCandidates(parts[..|parts| - 1]) +
      (if o != [] && |o| > 1 && |o| < 60 then [Candidate(Checkbox, Truncate(o, 30))] else [])
  }

  /** Checkbox candidates for the segments that follow each occurrence of one glyph. */
  function GlyphOptions(line: string, g: string): seq<Candidate>
    requires g != []
  {
    if ContainsSub(line, g) then OptionCandidates(SplitOn(line, g)[1..]) else []
  }

  /** Checkbox candidates of a line, glyph by glyph in alphabet order. */
  function GlyphCandidates(line: string, glyphs: seq<string>): seq<Candidate>
    requires NonEmptyStrings(glyphs)
  {
    if glyphs == [] then []
    else GlyphCandidates(line, glyphs[..|glyphs| - 1]) + GlyphOptions(line, glyphs[|glyphs| - 1])
  }

  predicate HasSkipKeyword(labelText: string)
  {
    exists k | 0 <= k < |SkipKeywords| :: ContainsSub(labelText, SkipKeywords[k])
  }

  /** The label of one markup-pattern match: the whole match, stripped. */
  function MatchLabel(line: string, m: Span): string
    requires m.start <= m.colon < |line|
  {
    Strip(line[m.start..m.colon + 1])
  }

  predicate KeepLabel(labelText: string)
  {
    |labelText| < 40 && !HasSkipKeyword(labelText)
  }

  lemma GlyphCandidatesStep(line: string, glyphs: seq<string>, g: nat)
    requires NonEmptyStrings(glyphs) && g < |glyphs|
    ensures GlyphCandidates(line, glyphs[..g + 1]) == GlyphCandidates(line, glyphs[..g]) + GlyphOptions(line, glyphs[g])
  {
    assert glyphs[..g + 1][..g] == glyphs[..g];
  }

  /** Text candidates for a list of matches of the markup pattern. */
  function TextCandidates(line: string, ms: seq<Span>): seq<Candidate>
    requires forall k :: 0 <= k < |ms| ==> ms[k].start <= ms[k].colon < |line|
  {
    if ms == [] then []
    else
      var labelText := MatchLabel(line, ms[|ms| - 1]);
      TextCandidates(line, ms[..|ms| - 1]) +
      (if KeepLabel(labelText) then [Candidate(TextBox, labelText)] else [])
  }

  lemma TextCandidatesStep(line: string, ms: seq<Span>, m: nat)
    requires m < |ms| && forall k :: 0 <= k < |ms| ==> ms[k].start <= ms[k].colon < |line|
    ensures TextCandidates(line, ms[..m + 1]) == TextCandidates(line, ms[..m]) +
      (if KeepLabel(MatchLabel(line, ms[m])) then [Candidate(TextBox, MatchLabel(line, ms[m]))] else [])
  {
    assert ms[..m + 1][..m] == ms[..m];
  }

  /** A markup line is skipped when blank or a horizontal rule. */
  predicate SkippedLine(line: string)
  {
    line == [] || StartsWith(line, "---")
  }

  function LineCandidates(raw: string): seq<Candidate>
  {
    var line := Strip(raw);
    if SkippedLine(line) then []
    else
      AllGlyphsNonEmpty();
      GlyphCandidates(line, AllGlyphs) + TextCandidates(line, Scan(line, 0, MarkdownLabel))
  }

  function LinesCandidates(lines: seq<string>): seq<Candidate>
  {
    if lines == [] then []
    else LinesCandidates(lines[..|lines| - 1]) + LineCandidates(lines[|lines| - 1])
  }

  lemma LinesCandidatesStep(lines: seq<string>, i: nat)
    requires i < |lines|
    ensures LinesCandidates(lines[..i + 1]) == LinesCandidates(lines[..i]) + LineCandidates(lines[i])
  {
    assert lines[..i + 1][..i] == lines[..i];
  }

  /** Everything the extractor reports for one page of markup. */
  function ExtractSpec(markdown: string): seq<Candidate>
  {
    LinesCandidates(SplitLines(markdown))
  }

  // ---------------------------------------------------------------------------
  // The extractor itself.

  /** Cuts one option at any further glyph, then squashes its whitespace. */
  method CleanOptionText(part: string) returns (option: string)
    ensures option == CleanOption(part)
    ensures GlyphFree(option)
  {
    CleanOptionSpec(part);
    AllGlyphsNonEmpty();
    option := Strip(part);
    for h := 0 to |AllGlyphs|
      invariant option == CutAtGlyphs(Strip(part), AllGlyphs[..h])
    {
      CutAtGlyphsStep(Strip(part), AllGlyphs, h);
      var other := AllGlyphs[h];
      if ContainsSub(option, other) {
        option := Strip(SplitOn(option, other)[0]);
      }
    }
    assert AllGlyphs[..|AllGlyphs|] == AllGlyphs;
    option := Collapse(option);
  }

  /** The options that follow the occurrences of one glyph in a line. */
  method OptionsAfterGlyph(line: string, cb: string) returns (fields: seq<Candidate>)
    requires cb != []
    ensures fields == GlyphOptions(line, cb)
  {
    fields := [];
    if ContainsSub(line, cb) {
      var parts := SplitOn(line, cb)[1..];
      for k := 0 to |parts|
        invariant fields == OptionCandidates(parts[..k])
      {
        assert parts[..k + 1][..k] == parts[..k];
        var option := CleanOptionText(parts[k]);
        if option != [] && |option| > 1 && |option| < 60 {
          fields := fields + [Candidate(Checkbox, Truncate(option, 30))];
        }
      }
      assert parts[..|parts|] == parts;
    }
  }

  /** The checkbox options of one (non-skipped) line. */
  method CheckboxOptions(line: string) returns (fields: seq<Candidate>)
    ensures fields == GlyphCandidates(line, AllGlyphs)
  {
    AllGlyphsNonEmpty();
    fields := [];
    for g := 0 to |AllGlyphs|
      invariant fields == GlyphCandidates(line, AllGlyphs[..g])
    {
      GlyphCandidatesStep(line, AllGlyphs, g);
      var options := OptionsAfterGlyph(line, AllGlyphs[g]);
      fields := fields + options;
    }
    assert AllGlyphs[..|AllGlyphs|] == AllGlyphs;
  }

  /** The colon-terminated labels of one (non-skipped) line that pass the noise filter. */
  method TextLabels(line: string) returns (fields: seq<Candidate>)
    ensures fields == TextCandidates(line, Scan(line, 0, MarkdownLabel))
  {
    fields := [];
    var matches := Scan(line, 0, MarkdownLabel);
    for m := 0 to |matches|
      invariant fields == TextCandidates(line, matches[..m])
    {
      TextCandidatesStep(line, matches, m);
      var labelText := Strip(line[matches[m].start..matches[m].colon + 1]);
      if |labelText| < 40 && !HasSkipKeyword(labelText) {
        fields := fields + [Candidate(TextBox, labelText)];
      }
    }
    assert matches[..|matches|] == matches;
  }

  method ExtractFormFields(markdown: string) returns (fields: seq<Candidate>)
    ensures fields == ExtractSpec(markdown)
  {
    fields := [];
    var lines := SplitLines(markdown);
    for i := 0 to |lines|
      invariant fields == LinesCandidates(lines[..i])
    {
      LinesCandidatesStep(lines, i);
      var found := ExtractLineFields(lines[i]);
      fields := fields + found;
    }
    assert lines[..|lines|] == lines;
  }

  /** One line of markup: skipped when blank or a rule, else its checkbox options, then its labels. */
  method ExtractLineFields(raw: string) returns (found: seq<Candidate>)
    ensures found == LineCandidates(raw)
  {
    var line := Strip(raw);
    if line == [] || StartsWith(line, "---") {
      return [];
    }
    var boxes := CheckboxOptions(line);
    var labels := TextLabels(line);
    found := boxes + labels;
  }

  // ---------------------------------------------------------------------------
  // Properties of the extractor.

  /** What every reported candidate looks like: a checkbox option of 2 to 30 characters that
      starts with a non-space and holds no checkbox glyph; or a text label shorter than 40 characters, without leading
      whitespace, made of label characters and ending in its only colon, with no noise keyword. */
  predicate WellFormed(c: Candidate)
  {
    match c.kind
    case Checkbox =>
      2 <= |c.labelText| <= 30 && !IsSpace(c.labelText[0]) && GlyphFree(c.labelText)
    case TextBox =>
      0 < |c.labelText| < 40 && !IsSpace(c.labelText[0]) &&
      c.labelText[|c.labelText| - 1] == ':' &&
      (forall i :: 0 <= i < |c.labelText| - 1 ==> InClass(MarkdownLabel, c.labelText[i])) &&
      !HasSkipKeyword(c.labelText)
  }

  predicate AllWellFormed(cs: seq<Candidate>)
  {
    forall k :: 0 <= k < |cs| ==> WellFormed(cs[k])
  }

  lemma {:induction false} OptionCandidatesWellFormed(parts: seq<string>)
    ensures AllWellFormed(OptionCandidates(parts))
  {
    if parts != [] {
      OptionCandidatesWellFormed(parts[..|parts| - 1]);
      var o := CleanOption(parts[|parts| - 1]);
      AllGlyphsNonEmpty();
      StripEnds(SquashRuns(CutAtGlyphs(Strip(parts[|parts| - 1]), AllGlyphs)));
      CleanOptionSpec(parts[|parts| - 1]);
      TruncateGlyphFree(o, 30);
      if |o| > 1 && |o| < 60 {
        assert WellFormed(Candidate(Checkbox, Truncate(o, 30)));
      }
    }
  }

  lemma {:induction false} GlyphCandidatesWellFormed(line: string, glyphs: seq<string>)
    requires NonEmptyStrings(glyphs)
    ensures AllWellFormed(GlyphCandidates(line, glyphs))
  {
    if glyphs != [] {
      GlyphCandidatesWellFormed(line, glyphs[..|glyphs| - 1]);
      OptionCandidatesWellFormed(SplitOn(line, glyphs[|glyphs| - 1])[1..]);
    }
  }

  /** An option is kept when its cleaned text has 2 to 59 characters. */
  predicate KeptOption(o: string)
  {
    1 < |o| < 60
  }

  /** The candidate a kept segment becomes: its cleaned text, cut to 30 characters. */
  function OptionCandidate(part: string): Candidate
  {
    Candidate(Checkbox, Truncate(CleanOption(part), 30))
  }

  /** `c` is the candidate of a kept segment among `parts`. */
  predicate FromKept(c: Candidate, parts: seq<string>)
  {
    exists p :: p in parts && KeptOption(CleanOption(p)) && c == OptionCandidate(p)
  }

  /** Every option candidate comes from a kept segment, and there is at most one per segment. */
  lemma {:induction false} OptionCandidatesOrigin(parts: seq<string>)
    ensures |OptionCandidates(parts)| <= |parts|
    ensures forall k :: 0 <= k < |OptionCandidates(parts)| ==> FromKept(OptionCandidates(parts)[k], parts)
  {
    if parts != [] {
      var init := parts[..|parts| - 1];
      var last := parts[|parts| - 1];
      OptionCandidatesOrigin(init);
      var cs := OptionCandidates(parts);
      var before := OptionCandidates(init);
      assert cs == before + (if KeptOption(CleanOption(last)) then [OptionCandidate(last)] else []);
      forall k | 0 <= k < |cs| ensures FromKept(cs[k], parts) {
        if k < |before| {
          var p :| p in init && KeptOption(CleanOption(p)) && before[k] == OptionCandidate(p);
          assert p in parts;
        } else {
          assert cs[k] == OptionCandidate(last);
          assert last in parts;
        }
      }
    }
  }

  /** Every kept segment is reported. */
  lemma {:induction false} KeptOptionsReported(parts: seq<string>)
    ensures forall p :: p in parts && KeptOption(CleanOption(p)) ==> OptionCandidate(p) in OptionCandidates(parts)
  {
    if parts != [] {
      var init := parts[..|parts| - 1];
      var last := parts[|parts| - 1];
      KeptOptionsReported(init);
      forall p | p in parts && KeptOption(CleanOption(p)) ensures OptionCandidate(p) in OptionCandidates(parts) {
        if p != last {
          assert p in init;
        }
      }
    }
  }

  /** A segment whose cleaned text is shorter than 2 or at least 60 characters yields nothing. */
  lemma DroppedOption(part: string)
    requires !KeptOption(CleanOption(part))
    ensures OptionCandidates([part]) == []
  {
    assert [part][..0] == [];
  }

  /** Every checkbox candidate of a line is a kept segment that follows one of the glyphs. */
  lemma {:induction false} GlyphCandidatesOrigin(line: string, glyphs: seq<string>)
    requires NonEmptyStrings(glyphs)
    ensures forall c :: c in GlyphCandidates(line, glyphs) ==>
      exists k: nat :: k < |glyphs| && FromKept(c, SplitOn(line, glyphs[k])[1..])
  {
    if glyphs != [] {
      var init := glyphs[..|glyphs| - 1];
      var g := glyphs[|glyphs| - 1];
      GlyphCandidatesOrigin(line, init);
      var parts := SplitOn(line, g)[1..];
      OptionCandidatesOrigin(parts);
      forall c | c in GlyphCandidates(line, glyphs)
        ensures exists k: nat :: k < |glyphs| && FromKept(c, SplitOn(line, glyphs[k])[1..])
      {
        if c in GlyphCandidates(line, init) {
          var k: nat :| k < |init| && FromKept(c, SplitOn(line, init[k])[1..]);
          assert glyphs[k] == init[k];
        } else {
          assert c in GlyphOptions(line, g);
          var i :| 0 <= i < |OptionCandidates(parts)| && OptionCandidates(parts)[i] == c;
          assert glyphs[|glyphs| - 1] == g;
        }
      }
    }
  }

  /** `c` is a kept segment that follows a checkbox glyph in the stripped markup line `raw`. */
  predicate OptionOfLine(c: Candidate, raw: string)
  {
    exists k: nat :: k < |AllGlyphs| && FromKept(c, SplitOn(Strip(raw), AllGlyphs[k])[1..])
  }

  lemma {:induction false} TextCandidatesAreText(line: string, ms: seq<Span>)
    requires forall k :: 0 <= k < |ms| ==> ms[k].start <= ms[k].colon < |line|
    ensures forall c :: c in TextCandidates(line, ms) ==> c.kind == TextBox
  {
    if ms != [] {
      TextCandidatesAreText(line, ms[..|ms| - 1]);
    }
  }

  /** The checkbox candidates of a line are its kept segments after a glyph. */
  lemma LineCheckboxOrigin(raw: string)
    ensures forall c :: c in LineCandidates(raw) && c.kind == Checkbox ==> OptionOfLine(c, raw)
  {
    var line := Strip(raw);
    if !SkippedLine(line) {
      AllGlyphsNonEmpty();
      GlyphCandidatesOrigin(line, AllGlyphs);
      TextCandidatesAreText(line, Scan(line, 0, MarkdownLabel));
    }
  }

  lemma {:induction false} LinesCheckboxOrigin(lines: seq<string>)
    ensures forall c :: c in LinesCandidates(lines) && c.kind == Checkbox ==>
      exists i :: 0 <= i < |lines| && OptionOfLine(c, lines[i])
  {
    if lines != [] {
      var init := lines[..|lines| - 1];
      LinesCheckboxOrigin(init);
      LineCheckboxOrigin(lines[|lines| - 1]);
      forall c | c in LinesCandidates(lines) && c.kind == Checkbox
        ensures exists i :: 0 <= i < |lines| && OptionOfLine(c, lines[i])
      {
        if c in LinesCandidates(init) {
          var i :| 0 <= i < |init| && OptionOfLine(c, init[i]);
          assert lines[i] == init[i];
        } else {
          assert OptionOfLine(c, lines[|lines| - 1]);
        }
      }
    }
  }

  /** Every checkbox candidate of the markup is the cleaned, cut text of a segment of 2 to 59
      cleaned characters that follows a checkbox glyph on one of its lines. */
  lemma ExtractCheckboxOrigin(markdown: string)
    ensures forall c :: c in ExtractSpec(markdown) && c.kind == Checkbox ==>
      exists i :: 0 <= i < |SplitLines(markdown)| && OptionOfLine(c, SplitLines(markdown)[i])
  {
    LinesCheckboxOrigin(SplitLines(markdown));
    assert ExtractSpec(markdown) == LinesCandidates(SplitLines(markdown));
  }

  /** The stripped text of a markup-pattern match is a well-formed text label. */
  lemma MatchLabelShape(line: string, m: Span)
    requires IsMatch(line, m, MarkdownLabel)
    ensures var l := MatchLabel(line, m);
      l != [] && !IsSpace(l[0]) && l[|l| - 1] == ':' &&
      forall i :: 0 <= i < |l| - 1 ==> InClass(MarkdownLabel, l[i])
  {
    var s := line[m.start..m.colon + 1];
    StripKeepsLastChar(s);
    StripEnds(s);
    var l := MatchLabel(line, m);
    forall i | 0 <= i < |l| - 1 ensures InClass(MarkdownLabel, l[i]) {
      assert l[i] == s[|s| - |l| + i] == line[m.start + |s| - |l| + i];
    }
  }

  lemma {:induction false} TextCandidatesWellFormed(line: string, ms: seq<Span>)
    requires forall k :: 0 <= k < |ms| ==> ms[k].start <= ms[k].colon < |line|
    requires forall k :: 0 <= k < |ms| ==> IsMatch(line, ms[k], MarkdownLabel)
    ensures AllWellFormed(TextCandidates(line, ms))
  {
    if ms != [] {
      TextCandidatesWellFormed(line, ms[..|ms| - 1]);
      MatchLabelShape(line, ms[|ms| - 1]);
    }
  }

  lemma {:induction false} LinesCandidatesWellFormed(lines: seq<string>)
    ensures AllWellFormed(LinesCandidates(lines))
  {
    if lines != [] {
      LinesCandidatesWellFormed(lines[..|lines| - 1]);
      var line := Strip(lines[|lines| - 1]);
      if !SkippedLine(line) {
        AllGlyphsNonEmpty();
        GlyphCandidatesWellFormed(line, AllGlyphs);
        TextCandidatesWellFormed(line, Scan(line, 0, MarkdownLabel));
      }
    }
  }

  /** Every candidate the extractor reports is well formed. */
  lemma ExtractWellFormed(markdown: string)
    ensures AllWellFormed(ExtractSpec(markdown))
  {
    LinesCandidatesWellFormed(SplitLines(markdown));
  }

  /** The markup is processed line by line: a further line adds exactly its own candidates. */
  lemma ExtractAppendLine(markdown: string, line: string)
    requires forall i :: 0 <= i < |line| ==> !IsLineBreak(line[i])
    ensures ExtractSpec(markdown + ['\n'] + line) == ExtractSpec(markdown) + LineCandidates(line)
  {
    SplitLinesAppend(markdown, line);
    SplitLinesSingle(line);
    var lines := SplitLines(markdown) + [line];
    assert lines[..|lines| - 1] == SplitLines(markdown);
  }

  /** Markup without a line break is one line. */
  lemma ExtractSingleLine(line: string)
    requires forall i :: 0 <= i < |line| ==> !IsLineBreak(line[i])
    ensures ExtractSpec(line) == LineCandidates(line)
  {
    SplitLinesSingle(line);
    assert [line][..0] == [];
    assert LinesCandidates([line]) == LinesCandidates([]) + LineCandidates(line);
  }

  /** Blank lines and horizontal rules contribute nothing. */
  lemma SkippedLineAddsNothing(markdown: string, line: string)
    requires forall i :: 0 <= i < |line| ==> !IsLineBreak(line[i])
    requires SkippedLine(Strip(line))
    ensures ExtractSpec(markdown + ['\n'] + line) == ExtractSpec(markdown)
  {
    ExtractAppendLine(markdown, line);
  }

  /** A glyph whose first character does not occur in a string does not occur in it. */
  lemma HeadsAbsent(s: string, glyphs: seq<string>, m: nat)
    requires NonEmptyStrings(glyphs)
    requires forall k :: m <= k < |glyphs| ==> glyphs[k][0] !in s
    ensures forall k :: m <= k < |glyphs| ==> !ContainsSub(s, glyphs[k])
  {
    forall k | m <= k < |glyphs| ensures !ContainsSub(s, glyphs[k]) {
      if ContainsSub(s, glyphs[k]) {
        ContainsNeedsChar(s, glyphs[k], 0);
      }
    }
  }

  /** Glyphs that do not occur in a string cannot cut it. */
  lemma {:induction false} AbsentGlyphsCutNothing(option: string, glyphs: seq<string>)
    requires NonEmptyStrings(glyphs)
    requires forall k :: 0 <= k < |glyphs| ==> !ContainsSub(option, glyphs[k])
    ensures CutAtGlyphs(option, glyphs) == option
  {
    if glyphs != [] {
      AbsentGlyphsCutNothing(option, glyphs[..|glyphs| - 1]);
    }
  }

  /** Glyphs that do not occur in a line yield no checkbox options. */
  lemma {:induction false} AbsentGlyphsNoOptions(line: string, glyphs: seq<string>)
    requires NonEmptyStrings(glyphs)
    requires forall k :: 0 <= k < |glyphs| ==> !ContainsSub(line, glyphs[k])
    ensures GlyphCandidates(line, glyphs) == []
  {
    if glyphs != [] {
      AbsentGlyphsNoOptions(line, glyphs[..|glyphs| - 1]);
    }
  }

  /** Trailing glyphs that do not occur in a line add nothing. */
  lemma {:induction false} AbsentGlyphsSuffix(line: string, glyphs: seq<string>, m: nat)
    requires NonEmptyStrings(glyphs) && m <= |glyphs|
    requires forall k :: m <= k < |glyphs| ==> !ContainsSub(line, glyphs[k])
    ensures GlyphCandidates(line, glyphs) == GlyphCandidates(line, glyphs[..m])
    decreases |glyphs|
  {
    if |glyphs| == m {
      assert glyphs[..m] == glyphs;
    } else {
      AbsentGlyphsSuffix(line, glyphs[..|glyphs| - 1], m);
      assert glyphs[..|glyphs| - 1][..m] == glyphs[..m];
    }
  }

  /** No glyph starts with an ASCII character, and only the second starts with U+2610. */
  lemma GlyphHeads()
    ensures forall k :: 0 <= k < |AllGlyphs| ==> |AllGlyphs[k]| > 0 && AllGlyphs[k][0] as int >= 128
    ensures forall k :: 0 <= k < |AllGlyphs| && k != 1 ==> AllGlyphs[k][0] != '\U{2610}'
    ensures AllGlyphs[1] == "\U{2610}"
  {
  }
}
