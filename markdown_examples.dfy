/** Worked examples of the markdown extractor on concrete markup lines. */
module MarkdownExamples {
  import opened Geometry
  import opened Text
  import opened LabelScan
  import opened Markdown

  const YesNo: string := "\U{2610} Yes \U{2610} No"
  const Box: string := "\U{2610}"

  /** Cleaning an option padded with whitespace gives back the option when it holds no
      whitespace and only ASCII characters. */
  lemma CleanPaddedWord(pre: string, w: string, post: string)
    requires forall i :: 0 <= i < |pre| ==> IsSpace(pre[i])
    requires forall i :: 0 <= i < |post| ==> IsSpace(post[i])
    requires w != [] && forall i :: 0 <= i < |w| ==> !IsSpace(w[i]) && w[i] as int < 128
    ensures CleanOption(pre + w + post) == w
  {
    StripPadded(pre, w, post);
    GlyphHeads();
    HeadsAbsent(w, AllGlyphs, 0);
    AbsentGlyphsCutNothing(w, AllGlyphs);
    SquashNoSpace(w);
    StripPadded([], w, []);
    assert [] + w + [] == w;
  }

  /** The line splits at its two boxes into an empty head, " Yes " and " No". */
  lemma YesNoSplitTail()
    ensures SplitOn(YesNo[1..], Box) == [" Yes ", " No"]
  {
    var c := '\U{2610}';
    assert Box == [c];
    var rest := YesNo[1..];
    assert rest == " Yes \U{2610} No";
    var last := rest[6..];
    assert last == " No";
    FindFromChar(rest, c, 0, 5);
    FindFromCharNone(last, c, 0);
    assert SplitOn(last, Box) == [last];
    assert SplitOn(rest, Box) == [rest[..5]] + SplitOn(last, Box);
    assert rest[..5] == " Yes ";
  }

  lemma YesNoSplit()
    ensures SplitOn(YesNo, Box) == ["", " Yes ", " No"]
  {
    var c := '\U{2610}';
    assert Box == [c];
    FindFromChar(YesNo, c, 0, 0);
    YesNoSplitTail();
    assert SplitOn(YesNo, Box) == [YesNo[..0]] + SplitOn(YesNo[1..], Box);
  }

  /** Only the second glyph of the alphabet occurs in the line. */
  lemma YesNoGlyphs()
    ensures GlyphCandidates(YesNo, AllGlyphs) == GlyphOptions(YesNo, Box)
  {
    assert forall i :: 0 <= i < |YesNo| ==> YesNo[i] == '\U{2610}' || YesNo[i] as int < 128;
    GlyphHeads();
    AllGlyphsNonEmpty();
    HeadsAbsent(YesNo, AllGlyphs, 2);
    AbsentGlyphsSuffix(YesNo, AllGlyphs, 2);
    HeadsAbsent(YesNo, AllGlyphs[..1], 0);
    AbsentGlyphsNoOptions(YesNo, AllGlyphs[..1]);
    assert AllGlyphs[..2][..1] == AllGlyphs[..1];
  }

  lemma YesNoOptions()
    ensures OptionCandidates([" Yes ", " No"]) == [Candidate(Checkbox, "Yes"), Candidate(Checkbox, "No")]
  {
    CleanPaddedWord(" ", "Yes", " ");
    CleanPaddedWord(" ", "No", []);
    assert " " + "Yes" + " " == " Yes ";
    assert " " + "No" + [] == " No";
    assert [" Yes ", " No"][..1] == [" Yes "];
  }

  lemma YesNoStripped()
    ensures Strip(YesNo) == YesNo
  {
    StripPadded([], YesNo, []);
    assert [] + YesNo + [] == YesNo;
  }

  lemma YesNoHasNoLabel()
    ensures Scan(YesNo, 0, MarkdownLabel) == []
  {
    assert ':' !in YesNo;
    NoColonNoMatch(YesNo, 0, MarkdownLabel);
  }

  /** The line is neither blank nor a rule, has no label, and only its box glyph contributes. */
  lemma YesNoLineCandidates()
    ensures LineCandidates(YesNo) == GlyphOptions(YesNo, Box)
  {
    YesNoStripped();
    assert !SkippedLine(YesNo);
    YesNoGlyphs();
    YesNoHasNoLabel();
    assert TextCandidates(YesNo, []) == [];
  }

  lemma YesNoGlyphOptions()
    ensures GlyphOptions(YesNo, Box) == [Candidate(Checkbox, "Yes"), Candidate(Checkbox, "No")]
  {
    assert OccursAt(YesNo, Box, 0);
    YesNoSplit();
    assert SplitOn(YesNo, Box)[1..] == [" Yes ", " No"];
    YesNoOptions();
  }

  /** The line "box Yes box No" (the box being U+2610) yields exactly the checkbox options "Yes" and "No". */
  lemma YesNoLine()
    ensures ExtractSpec(YesNo) == [Candidate(Checkbox, "Yes"), Candidate(Checkbox, "No")]
  {
    assert forall i :: 0 <= i < |YesNo| ==> !IsLineBreak(YesNo[i]);
    ExtractSingleLine(YesNo);
    YesNoLineCandidates();
    YesNoGlyphOptions();
  }

  const NoteLine: string := "Patient Name: NOTE:"

  /** "Patient Name:" passes the noise filter. */
  lemma PatientNameIsNotNoise()
    ensures !HasSkipKeyword("Patient Name:")
  {
    var l := "Patient Name:";
    forall k | 0 <= k < |SkipKeywords| ensures !ContainsSub(l, SkipKeywords[k]) {
      var j: nat := if k == 0 then 1 else 0;
      assert j < |SkipKeywords[k]|;
      if ContainsSub(l, SkipKeywords[k]) {
        ContainsNeedsChar(l, SkipKeywords[k], j);
        assert false;
      }
    }
  }

  /** The scanner reports "Patient Name:" and " NOTE:". */
  lemma NoteScan()
    ensures Scan(NoteLine, 0, MarkdownLabel) == [Span(0, 12), Span(13, 18)]
  {
    RunEndAt(NoteLine, 0, 12, MarkdownLabel);
    RunEndAt(NoteLine, 13, 18, MarkdownLabel);
    assert Scan(NoteLine, 19, MarkdownLabel) == [];
    assert Scan(NoteLine, 13, MarkdownLabel) == [Span(13, 18)];
  }

  /** " NOTE:" strips to a noise keyword. */
  lemma NoteIsNoise()
    ensures !KeepLabel(MatchLabel(NoteLine, Span(13, 18)))
  {
    assert NoteLine[13..19] == " " + "NOTE:" + [];
    StripPadded(" ", "NOTE:", []);
    assert OccursAt("NOTE:", SkipKeywords[0], 0);
  }

  lemma NoteLabels()
    ensures TextCandidates(NoteLine, [Span(0, 12), Span(13, 18)]) == [Candidate(TextBox, "Patient Name:")]
  {
    assert NoteLine[0..13] == [] + "Patient Name:" + [];
    StripPadded([], "Patient Name:", []);
    PatientNameIsNotNoise();
    NoteIsNoise();
    assert [Span(0, 12), Span(13, 18)][..1] == [Span(0, 12)];
    assert [Span(0, 12)][..0] == [];
  }

  lemma NoteNoGlyphs()
    ensures GlyphCandidates(NoteLine, AllGlyphs) == []
  {
    assert forall i :: 0 <= i < |NoteLine| ==> NoteLine[i] as int < 128;
    AllGlyphsNonEmpty();
    GlyphHeads();
    HeadsAbsent(NoteLine, AllGlyphs, 0);
    AbsentGlyphsNoOptions(NoteLine, AllGlyphs);
  }

  lemma NoteStripped()
    ensures Strip(NoteLine) == NoteLine
  {
    StripPadded([], NoteLine, []);
    assert [] + NoteLine + [] == NoteLine;
  }

  lemma NoteLineCandidates()
    ensures LineCandidates(NoteLine) == [Candidate(TextBox, "Patient Name:")]
  {
    NoteStripped();
    assert !SkippedLine(NoteLine);
    NoteNoGlyphs();
    NoteScan();
    NoteLabels();
  }

  /** On the line "Patient Name: NOTE:" the label is kept and the "NOTE:" label is filtered out. */
  lemma NoteLabelFiltered()
    ensures ExtractSpec(NoteLine) == [Candidate(TextBox, "Patient Name:")]
  {
    assert forall i :: 0 <= i < |NoteLine| ==> !IsLineBreak(NoteLine[i]);
    ExtractSingleLine(NoteLine);
    NoteLineCandidates();
  }
}
