# pdf-acro field inference, modelled in Dafny

This project models the field-inference engine of the pdf-acro converter
(`converter_core.py`). For each page of a document, the engine decides where fillable
widgets should go, either checkboxes or text boxes. It works in one of two ways:

- **Native text.** On a page with a text layer:
  - every checkbox glyph hit becomes a checkbox;
  - runs of underscores are merged into text fields;
  - only when there are no underscores, a text field is projected to the right of every
    `Label:` on a line.
- **OCR.** On a page without a text layer, the engine uses the markup the OCR service
  returned for that page:
  - it extracts checkbox options and `Label:` candidates from the markup;
  - it anchors each candidate to the best-matching unused recognised text box, using a
    fuzzy matcher;
  - it places a checkbox left of the anchor, or a text field right of it.

Either way, fields with no area are dropped, and so is a field that overlaps an earlier kept
field of the same kind. The document pass names every widget `page<i>_field<j>`, counting
from 1, and reports how many widgets it added.

Each loop of the source is a method. Each method is proved equal to a specification
function built by appending one element at a time. The properties are then proved, as
lemmas, about those functions.

| module | file | models |
|---|---|---|
| `Geometry` | geometry.dfy | rectangles, field kinds, strict intersection, bounding hull |
| `Text` | text.dfy | strip, lower, split, whitespace split and squash, substring search, line splitting |
| `LabelScan` | label_scan.dfy | the two `Label:` regular expressions as a leftmost, non-overlapping scan |
| `Markdown` | markdown.dfy | candidate extraction from OCR markup |
| `Matcher` | matcher.dfy | fuzzy matching of a label to a recognised text box |
| `OcrFields` | ocr_fields.dfy | field synthesis on the OCR path |
| `Underscore` | underscore.dfy | the underscore-run merger |
| `NativeLabels` | native_labels.dfy | the checkbox-glyph locator and the native `Label:` locator |
| `Dedup` | dedup.dfy | the final deduplication pass |
| `Detect` | detect.dfy | strategy selection for one page |
| `Convert` | convert.dfy | widget naming and counting over the document |
| `MarkdownExamples`, `MatcherExamples` | *_examples.dfy | worked examples on concrete strings |

The engine's collaborators become inputs:

- The PDF library's text search is a function `string -> seq<Rect>` in each page.
- The page layout is a sequence of blocks, each with a type and lines. A line has its span
  texts and the top of its bounding box.
- The recognised text boxes are a sequence of `TextPosition`s, already in page units.
- The OCR service's answer is an `Option` of markup pages: `None` when the call failed.

Where the code and its prose description differ, the model follows the code:

- The native label pattern (`converter_core.py:235`) has no digits, while the markup
  pattern (`:104`) has them. `NativeLabels.DigitLabelOnlyInMarkup` shows the difference
  on `Line 1:`.
- A native label field is `min(150, page width - 20 - (label right edge + 2))` wide. The
  field starts 2 units after the label, and the limit is measured from there.
- Candidates are matched in extraction order. Within a markup line, checkbox options come
  before text labels, but the two kinds interleave across lines. They are not sorted with
  all checkboxes first.
- On the OCR path, the width clamp already makes every text field at least 20 units wide.
  The "wider than 15" test therefore never rejects a field (`OcrFields.TextFieldShape`).
- An empty recognised text occurs in every label. It therefore scores the label's length,
  the highest score any box can reach, so for a label of two or more cleaned characters an
  unused empty box guarantees that some box is matched (`Matcher.EmptyTextAlwaysMatches`).
  A label that cleans to fewer than two characters never matches (`Matcher.ShortLabelNeverMatches`). The match goes to the first unused box with
  that score, which may be an earlier non-empty box. This is modelled as written.

## Model

| member | source | states |
|---|---|---|
| Geometry.Hull | converter_core.py:218-221 | the merged rectangle contains both inputs and lies inside every rectangle that contains both |
| LabelScan.Scan | converter_core.py:104 | every reported match is a non-empty run of label characters ending at a colon; matches come in order and do not overlap |
| LabelScan.ScanIsLeftmost | converter_core.py:104 | the first match starts at the leftmost position whose run of label characters reaches a colon; nothing is found iff no position does |
| LabelScan.NoColonNoMatch | converter_core.py:104-105 | a line without a colon yields no label |
| Text.SplitOnJoin | converter_core.py:93 | joining the pieces of a split with the separator gives back the text |
| Text.SplitOnPiecesFree | converter_core.py:93 | no piece of a split contains the separator |
| Text.SplitLinesAppend | converter_core.py:82 | the lines of two texts joined by a newline are the lines of the first followed by the lines of the second |
| Text.CollapseOccurs | converter_core.py:99 | squashing whitespace runs and stripping creates no occurrence of a string without whitespace |
| Markdown.CutOnce | converter_core.py:97-98 | one cut keeps the text before the first occurrence of the glyph, minus trailing whitespace: a prefix that holds no such glyph and is followed only by whitespace up to the occurrence |
| Markdown.CutAtGlyphsSpec | converter_core.py:94-98 | the cuts keep a prefix of the stripped segment that starts with a non-space and holds none of the glyphs; it is the whole segment or ends, up to whitespace, right before an occurrence of a glyph |
| Markdown.CleanOptionSpec | converter_core.py:94-99 | a cleaned option is the squashed, stripped text of that prefix, and it holds no checkbox glyph |
| Markdown.CleanOptionText | converter_core.py:94-99 | the cleaning loop computes `CleanOption`, and the option it returns holds no checkbox glyph |
| Markdown.OptionsAfterGlyph | converter_core.py:91-101 | the options after every occurrence of one glyph, kept when 2 to 59 characters long and cut to 30 characters |
| Markdown.CheckboxOptions | converter_core.py:90-101 | the options of every glyph in alphabet order, glyph by glyph |
| Markdown.TextLabels | converter_core.py:104-111 | one candidate per markup-pattern match that is shorter than 40 characters and holds no noise keyword, in line order |
| Markdown.ExtractFormFields | converter_core.py:74-113 | `|` becomes a line break; each stripped line that is neither blank nor a rule yields its checkbox options, then its text labels |
| Markdown.ExtractLineFields | converter_core.py:84-111 | one markup line yields nothing when blank or a `---` rule, otherwise its checkbox options followed by its text labels, as `LineCandidates` defines |
| Markdown.ExtractWellFormed | converter_core.py:100-111 | checkbox labels are 2 to 30 characters, start with a non-space and hold no checkbox glyph; text labels are under 40 characters, end in their only colon, use only label characters, and hold no noise keyword |
| Markdown.OptionCandidatesOrigin | converter_core.py:92-101 | there is at most one checkbox candidate per segment, and each is the cleaned text, cut to 30 characters, of a segment whose cleaned text has 2 to 59 characters |
| Markdown.KeptOptionsReported | converter_core.py:92-101 | every segment whose cleaned text has 2 to 59 characters yields its candidate |
| Markdown.DroppedOption | converter_core.py:100-101 | a segment whose cleaned text is shorter than 2 or at least 60 characters yields nothing |
| Markdown.GlyphCandidatesOrigin | converter_core.py:90-101 | every checkbox candidate of a line comes from a kept segment after an occurrence of one of the glyphs |
| Markdown.ExtractCheckboxOrigin | converter_core.py:82-101 | every checkbox candidate of the markup is the cut, cleaned text of a kept segment that follows a glyph on one of its lines |
| Markdown.ExtractAppendLine | converter_core.py:82-84 | appending a line to the markup appends exactly that line's candidates |
| Markdown.ExtractSingleLine | converter_core.py:82-111 | markup without `|` or newline yields exactly the candidates of that one line |
| Markdown.SkippedLineAddsNothing | converter_core.py:85-87 | a blank line or a `---` rule adds no candidate |
| Markdown.AbsentGlyphsCutNothing | converter_core.py:96-98 | glyphs that do not occur in an option leave it uncut |
| Markdown.AbsentGlyphsNoOptions | converter_core.py:90-92 | glyphs that do not occur in a line yield no checkbox options |
| Markdown.GlyphHeads | converter_core.py:16-17 | every checkbox glyph starts with a non-ASCII character; only one starts with U+2610 |
| MarkdownExamples.YesNoLine | converter_core.py:90-101 | the line "☐ Yes ☐ No" yields the checkbox candidates "Yes" and "No", and nothing else |
| MarkdownExamples.NoteLabelFiltered | converter_core.py:104-111 | "Patient Name: NOTE:" yields only "Patient Name:"; the NOTE: label is dropped by the keyword filter |
| Matcher.PositionScore | converter_core.py:131-146 | a position scores the larger of the substring ratio and the word-overlap ratio |
| Matcher.MatchOf | converter_core.py:115-150 | a reported position is in range and not yet used |
| Matcher.FindLabelPosition | converter_core.py:115-150 | the scan with its two sequential best-score updates returns `MatchOf` |
| Matcher.BestOfIsFirstMaximum | converter_core.py:122-146 | the scan keeps the first unused position with the highest score; when nothing is kept, every unused score is 0 |
| Matcher.MatchIsFirstBest | converter_core.py:115-150 | a match is unused, scores above 0.3, is a maximum and beats every earlier position; there is no match iff the cleaned label is shorter than 2 characters or no unused position scores above 0.3 |
| Matcher.ShortLabelNeverMatches | converter_core.py:117-120 | a label that cleans to fewer than 2 characters finds nothing |
| Matcher.ScoreAtMostLabelLength | converter_core.py:131-143 | no box scores more than the cleaned label's length |
| Matcher.EmptyTextAlwaysMatches | converter_core.py:122-150 | an unused box with empty text guarantees a match for any label of 2 or more cleaned characters; the matched box is that one or an earlier one, scores the label's length, and is the first unused box to do so |
| Matcher.SubstringScoreAboveOne | converter_core.py:132-133 | a shorter, non-empty part of the label scores above 1 |
| Matcher.WordScoreAtMostOne | converter_core.py:139-143 | the word-overlap ratio lies between 0 and 1 |
| MatcherExamples.PatientNameScore | converter_core.py:131-146 | "patient name" against "patient name:" scores 12/13 |
| MatcherExamples.PatientNameSelected | converter_core.py:115-150 | the label "Patient Name:" is matched to the only text box, "Patient Name:" |
| MatcherExamples.DateOfBirthRejected | converter_core.py:115-150 | the label "Patient Name:" scores 0 against "Date of Birth" and finds nothing |
| OcrFields.NeighbourLimit | converter_core.py:185-189 | the right limit is computed over all other positions, as `RightLimit` defines |
| OcrFields.RightLimitIsMinimum | converter_core.py:185-189 | the limit is the least of page width - 20 and of each same-line neighbour's left edge - 2, used or not |
| OcrFields.FieldFor | converter_core.py:172-197 | a checkbox spans 12 to 1 units left of its option; a text field starts 2 units right of its label with a clamped width; a field is dropped when not wider than 15 |
| OcrFields.TextFieldShape | converter_core.py:181-193 | a text field starts at label right edge + 2, keeps the label's height, and is 20 to 200 units wide, so the > 15 test always passes |
| OcrFields.TextFieldStopsAtNeighbour | converter_core.py:185-191 | when the nearest neighbour leaves 20 to 200 units, the field ends 2 units before it |
| OcrFields.DetectFieldsOcr | converter_core.py:152-198 | candidates are processed in extraction order; each is matched against the positions still unused and marks its anchor used |
| OcrFields.StepKeepsConsistent | converter_core.py:165-198 | one candidate adds at most one field, beside a distinct anchor that is now marked used |
| OcrFields.PlaceKeepsConsistent | converter_core.py:166-197 | anchoring at an unused box adds exactly one field, beside that box, and marks the box used; no anchor adds nothing |
| OcrFields.SynthesisInvariant | converter_core.py:163-198 | over a page: no text box anchors two fields, the used set is exactly the anchors, every field sits beside its anchor, and there are at most as many fields as candidates |
| OcrFields.MatchedCandidateIsPlaced | converter_core.py:166-197 | a candidate that finds a box always yields a field of its own kind, anchored at that box |
| Underscore.Insert | converter_core.py:217 | insertion adds exactly the one element to the multiset |
| Underscore.SortByPositionSpec | converter_core.py:217 | the ordering is sorted by (top, left) and is a permutation of the hits |
| Underscore.InsertKeepsTies | converter_core.py:217 | inserting a hit places it after every element with the same (top, left) key already in the list |
| Underscore.SortByPositionStable | converter_core.py:217 | the sort is stable: hits with equal (top, left) keys keep their input order |
| Underscore.MergeRuns | converter_core.py:216-223 | merging never yields more runs than hits, and at least one run when there are hits |
| Underscore.MergeHits | converter_core.py:216-223 | the merge loop over the sorted hits computes `MergeRuns`, whose covering and count properties are proved below |
| Underscore.PadRuns | converter_core.py:224-225 | the padding loop computes `RunFields` |
| Underscore.RunFields | converter_core.py:224-225 | each run becomes a text field 2 units taller |
| Underscore.FindUnderscoreFields | converter_core.py:211-226 | no hits give no fields; otherwise the hits are sorted, merged greedily into the last run, and padded |
| Underscore.MergeRunsCovers | converter_core.py:216-223 | every hit lies inside some merged run |
| Underscore.UnderscoreCount | converter_core.py:213-225 | there are never more fields than hits, and there are no fields iff there are no hits |
| Underscore.UnderscoreCovers | converter_core.py:211-226 | every hit lies inside one of the fields |
| Underscore.JoinIff | converter_core.py:218-223 | a hit extends the last run iff the tops differ by less than 3 and it starts less than 5 units after the run ends |
| Underscore.GapOfSixDoesNotMerge | converter_core.py:218-225 | hits 6 units apart stay two fields; hits 4 units apart become one field spanning both, 2 units taller |
| NativeLabels.TextBlocks | converter_core.py:36-38 | every kept block is a type-0 block of the page, and every type-0 block is kept |
| NativeLabels.TextBlocksSingle | converter_core.py:38 | one block is kept iff its type is 0 |
| NativeLabels.TextBlocksAppend | converter_core.py:38 | the filter of a concatenation is the concatenation of the filters, so the type-0 blocks keep their order and multiplicity |
| NativeLabels.FindCheckboxLocations | converter_core.py:204-209 | every search hit of every glyph, glyph by glyph |
| NativeLabels.GlyphHitsMembers | converter_core.py:204-209 | every hit of every glyph is reported, and the count is the sum of the hits |
| NativeLabels.FirstNear | converter_core.py:236-237 | the chosen hit is the first one whose top lies within 5 units of the line's top; none iff no hit does |
| NativeLabels.FindMatchField | converter_core.py:236-242 | the field for one label is placed at its first on-line hit only, if that field is wide enough |
| NativeLabels.FindLineLabelFields | converter_core.py:233-242 | the fields of one line, label by label |
| NativeLabels.FindLinesLabelFields | converter_core.py:232-242 | the fields of the lines of one block, line by line |
| NativeLabels.FindLabelFields | converter_core.py:228-243 | the fields of every line of every text block, in layout order |
| NativeLabels.LabelFieldAt | converter_core.py:238-241 | a field starts at label right edge + 2 and keeps the label's height; it is wider than 20, at most 150 wide, and ends by page width - 20; it exists iff page width - label right edge > 42 |
| NativeLabels.LineFieldsShape | converter_core.py:235-242 | a line yields at most one field per native label match; every field is a text field more than 20 and at most 150 wide, ending by page width - 20, and is the field `LabelField` places at the first hit, within 5 units of the line's top, of one match's needle |
| NativeLabels.LabelFieldsShape | converter_core.py:228-243 | every label field is a text field more than 20 and at most 150 units wide |
| NativeLabels.NativeLabelsHaveNoDigits | converter_core.py:235 | a native label match contains no digit |
| NativeLabels.DigitLabelOnlyInMarkup | converter_core.py:235 | on "Line 1:" the markup pattern finds a label and the native pattern finds none |
| Dedup.IsDuplicate | converter_core.py:273 | a field is a duplicate iff a kept field of the same kind intersects it |
| Dedup.DedupFields | converter_core.py:268-276 | fields without area are skipped; a field is kept unless it is a duplicate of an earlier kept field |
| Dedup.DedupIsClean | converter_core.py:268-276 | no kept field lacks area, and no two kept fields of one kind intersect |
| Dedup.DedupIsSubsequence | converter_core.py:268-276 | the kept fields are input fields at strictly increasing indices |
| Dedup.DedupIsMaximal | converter_core.py:268-276 | every input field with area is kept or overlaps a kept field of its kind; it is dropped only when it overlaps a same-kind field kept before it, and otherwise it is the next field kept |
| Dedup.DedupChain | converter_core.py:268-276 | of three same-kind fields where only the middle one overlaps its neighbours, the first and the third are kept |
| Dedup.DedupKeepsClean | converter_core.py:268-276 | a clean list passes through unchanged |
| Dedup.DedupIdempotent | converter_core.py:268-276 | deduplicating twice equals deduplicating once |
| Dedup.DedupPair | converter_core.py:271-275 | of two fields with area, the second is dropped iff it is of the first's kind and overlaps it |
| Detect.CheckboxFields | converter_core.py:253-254 | every glyph hit becomes a checkbox field at that rectangle, in order |
| Detect.FindPageMarkdown | converter_core.py:260-264 | the lookup returns `PageMarkdown`, stopping at the first page with the index |
| Detect.PageMarkdownIsFirstMatch | converter_core.py:260-264 | the markup used is that of the first OCR page with the page's index; it is empty when no page has the index |
| Detect.DetectNativeFields | converter_core.py:252-258 | checkbox hits, then underscore fields, then the label fields when there are no underscore fields |
| Detect.DetectFields | converter_core.py:247-276 | native strategies with a text layer, otherwise the OCR path with non-empty markup, otherwise nothing; then deduplication |
| Detect.NoTextNoMarkupNoFields | converter_core.py:259-266 | with no text layer, and with no OCR answer or empty markup for the page (what a page missing from the answer also gives), no field is detected |
| Detect.NativeOrder | converter_core.py:252-258 | checkbox hits come first, then only text fields; the label fields are used exactly when the underscore search finds nothing |
| Detect.DetectIsClean | converter_core.py:268-276 | detected fields have area, and no two of one kind intersect |
| Detect.DetectIsStable | converter_core.py:268-276 | deduplicating the detected fields again changes nothing |
| Convert.DecimalRoundTrip | converter_core.py:301 | reading back the decimal numeral of a number gives the number |
| Convert.FieldNameInjective | converter_core.py:301 | two (page, index) pairs with the same widget name are equal |
| Convert.PageWidgets | converter_core.py:298-305 | the j-th field of page i becomes a widget named `page{i+1}_field{j+1}` with its kind and rectangle |
| Convert.AnyPageWithoutText | converter_core.py:285 | OCR is needed iff some page has no text block |
| Convert.AddPageWidgets | converter_core.py:298-306 | the widgets of one page, as `PageWidgets` defines |
| Convert.ConvertDocument | converter_core.py:284-306 | the OCR answer is used only when needed; each page's detected fields become its named widgets, in order; the total is the number of widgets added |
| Convert.DocumentNamesDistinct | converter_core.py:295-306 | no two widgets of the document share a name |
| Convert.TotalIsSumOfPages | converter_core.py:294-306 | the total equals the sum of the pages' field counts |

## Left out

- The OCR service call, the upload, the signed URL and the API key are left out. Their
  outcome is the input `Option<seq<MdPage>>`, where `None` stands for a failed call
  (`converter_core.py:40-51`, `:288-292`).
- Recognising text boxes is left out: rendering the page, the OCR reader, and rescaling
  its pixel boxes to page units. The positions are an input already in page units. The
  recogniser's confidence is never read by the engine and is not modelled
  (`converter_core.py:54-72`).
- The PDF library is left out:
  - Text search is an input function, so its matching rules are not modelled.
  - Text blocks are input data.
  - `Rect.intersects` is taken to be a strict overlap of two rectangles that both have area.
  - Adding a widget, the text field flags, `need_appearances`, saving and closing are not
    modelled, and neither are the client and reader caches.
- Coordinates and scores are exact reals. Floating-point rounding of the divisions and
  sums is not modelled.
- Character handling is ASCII only:
  - Whitespace for `strip`, `split` and `\s` is the ASCII whitespace Python recognises: space,
    U+0009 to U+000D and the separators U+001C to U+001F.
  - `lower()` maps only `A`-`Z`.
  - Python also treats some non-ASCII characters as whitespace or upper case; the model
    does not.
- The two regular expressions are modelled by the scan they perform on a line, not by a
  general regex engine.
- The upload interface and the command-line driver are not part of this model.
- Markdown.CutAtGlyphsSpec: states that the kept text holds no glyph and ends, up to
  whitespace, right before some glyph occurrence. It does not state that this is the earliest
  occurrence. The two coincide unless two glyph occurrences overlap, since glyphs hold no
  whitespace.
- The checkbox glyph table holds the characters as code points. The mis-encoded glyphs
  are the code points of their three-character spellings.
