/**
 * The native-text strategies that work from the page's own text layer: the checkbox
 * glyph locator and the "Label:" locator, which projects a text field to the right of
 * each colon-terminated label found on a line. The page's text search is an input: a
 * function from a needle to the rectangles where it occurs, in the order the PDF
 * library reports them.
 */
module NativeLabels {
  import opened Geometry
  import opened Text
  import opened LabelScan
  import Markdown

  /** One line of a text block: the texts of its spans and the top of its bounding box. */
  datatype TextLine = TextLine(spans: seq<string>, top: real)

  /** A block of the page's layout; type 0 is a text block, other types are images. */
  datatype Block = Block(blockType: int, lines: seq<TextLine>)

  /** The text blocks of a page, in layout order. */
  function TextBlocks(blocks: seq<Block>): (r: seq<Block>)
    ensures |r| <= |blocks|
    ensures forall k :: 0 <= k < |r| ==> r[k].blockType == 0 && r[k] in blocks
    ensures forall b :: b in blocks && b.blockType == 0 ==> b in r
  {
    if blocks == [] then []
    else
      var rest := TextBlocks(blocks[..|blocks| - 1]);
      var b := blocks[|blocks| - 1];
      assert blocks == blocks[..|blocks| - 1] + [b];
      if b.blockType == 0 then rest + [b] else rest
  }

  /** A single block is kept exactly when it is a text block. */
  lemma TextBlocksSingle(b: Block)
    ensures TextBlocks([b]) == if b.blockType == 0 then [b] else []
  {
    assert [b][..0] == [];
  }

  lemma TextBlocksSnoc(s: seq<Block>, b: Block)
    ensures TextBlocks(s + [b]) == TextBlocks(s) + (if b.blockType == 0 then [b] else [])
  {
    assert (s + [b])[..|s|] == s;
  }

  /** The filter distributes over concatenation, so it keeps the text blocks in their order
      and with their multiplicity. */
  lemma {:induction false} TextBlocksAppend(a: seq<Block>, b: seq<Block>)
    ensures TextBlocks(a + b) == TextBlocks(a) + TextBlocks(b)
    decreases |b|
  {
    if b == [] {
      assert a + b == a;
    } else {
      var c := b[..|b| - 1];
      var x := b[|b| - 1];
      TextBlocksAppend(a, c);
      assert b == c + [x];
      assert a + b == (a + c) + [x];
      TextBlocksSnoc(a + c, x);
      TextBlocksSnoc(c, x);
      ConsAppend(TextBlocks(a), TextBlocks(c), if x.blockType == 0 then [x] else []);
    }
  }

  // ---------------------------------------------------------------------------
  // Checkbox glyphs.

  /** Every hit of every checkbox glyph, glyph by glyph in alphabet order. */
  function GlyphHits(search: string -> seq<Rect>, glyphs: seq<string>): seq<Rect>
  {
    if glyphs == [] then []
    else GlyphHits(search, glyphs[..|glyphs| - 1]) + search(glyphs[|glyphs| - 1])
  }

  method FindCheckboxLocations(search: string -> seq<Rect>) returns (locations: seq<Rect>)
    ensures locations == GlyphHits(search, Markdown.AllGlyphs)
  {
    locations := [];
    var glyphs := Markdown.AllGlyphs;
    for g := 0 to |glyphs|
      invariant locations == GlyphHits(search, glyphs[..g])
    {
      assert glyphs[..g + 1][..g] == glyphs[..g];
      var hits := search(glyphs[g]);
      for h := 0 to |hits|
        invariant locations == GlyphHits(search, glyphs[..g]) + hits[..h]
      {
        assert hits[..h + 1] == hits[..h] + [hits[h]];
        locations := locations + [hits[h]];
      }
      assert hits[..|hits|] == hits;
    }
    assert glyphs[..|glyphs|] == glyphs;
  }

  /** The locator reports exactly the search hits of each glyph, in alphabet order. */
  lemma {:induction false} GlyphHitsMembers(search: string -> seq<Rect>, glyphs: seq<string>)
    ensures |GlyphHits(search, glyphs)| == SumHits(search, glyphs)
    ensures forall k, r :: 0 <= k < |glyphs| && r in search(glyphs[k]) ==> r in GlyphHits(search, glyphs)
  {
    if glyphs != [] {
      GlyphHitsMembers(search, glyphs[..|glyphs| - 1]);
      forall k, r | 0 <= k < |glyphs| && r in search(glyphs[k]) ensures r in GlyphHits(search, glyphs) {
        if k < |glyphs| - 1 {
          assert glyphs[..|glyphs| - 1][k] == glyphs[k];
        }
      }
    }
  }

  function SumHits(search: string -> seq<Rect>, glyphs: seq<string>): nat
  {
    if glyphs == [] then 0 else SumHits(search, glyphs[..|glyphs| - 1]) + |search(glyphs[|glyphs| - 1])|
  }

  // ---------------------------------------------------------------------------
  // "Label:" fields.

  /** "".join of the span texts. */
  function Concat(spans: seq<string>): string
  {
    if spans == [] then [] else Concat(spans[..|spans| - 1]) + spans[|spans| - 1]
  }

  function LineText(line: TextLine): string
  {
    Strip(Concat(line.spans))
  }

  /** The needle searched for a label match: the captured label, stripped, with a colon. */
  function LabelKey(lt: string, m: Span): string
    requires m.start <= m.colon <= |lt|
  {
    Strip(lt[m.start..m.colon]) + ":"
  }

  /** A hit lies on the line when its top is within 5 units of the line's top. */
  predicate NearLine(hit: Rect, top: real)
  {
    Abs(hit.y0 - top) < 5.0
  }

  /** The first hit on the line, if any. */
  function FirstNear(hits: seq<Rect>, top: real): (r: Option<nat>)
    ensures r.Some? ==> r.value < |hits| && NearLine(hits[r.value], top) &&
                        forall j :: 0 <= j < r.value ==> !NearLine(hits[j], top)
    ensures r.None? ==> forall j :: 0 <= j < |hits| ==> !NearLine(hits[j], top)
  {
    if hits == [] then None
    else if NearLine(hits[0], top) then Some(0)
    else match FirstNear(hits[1..], top)
      case None => None
      case Some(j) => Some(j + 1)
  }

  /** The field projected right of a located label: 2 units after it, at most 150 wide and at
      least 20 units short of the page's right edge; none unless wider than 20. */
  function LabelField(hit: Rect, pageWidth: real): Option<Field>
  {
    var fx0 := hit.x1 + 2.0;
    var fx1 := Min(fx0 + 150.0, pageWidth - 20.0);
    if fx1 - fx0 > 20.0 then Some(Field(TextBox, Rect(fx0, hit.y0, fx1, hit.y1))) else None
  }

  /** The field for one label match: at the first hit of its needle that lies on the line. */
  function MatchField(lt: string, m: Span, top: real, pageWidth: real, search: string -> seq<Rect>): seq<Field>
    requires m.start <= m.colon <= |lt|
  {
    var hits := search(LabelKey(lt, m));
    match FirstNear(hits, top)
    case None => []
    case Some(j) =>
      match LabelField(hits[j], pageWidth)
      case None => []
      case Some(f) => [f]
  }

  function MatchesFields(lt: string, ms: seq<Span>, top: real, pageWidth: real, search: string -> seq<Rect>): seq<Field>
    requires forall k :: 0 <= k < |ms| ==> ms[k].start <= ms[k].colon <= |lt|
  {
    if ms == [] then []
    else MatchesFields(lt, ms[..|ms| - 1], top, pageWidth, search) + MatchField(lt, ms[|ms| - 1], top, pageWidth, search)
  }

  lemma MatchesFieldsStep(lt: string, ms: seq<Span>, k: nat, top: real, pageWidth: real, search: string -> seq<Rect>)
    requires k < |ms|
    requires forall i :: 0 <= i < |ms| ==> ms[i].start <= ms[i].colon <= |lt|
    ensures MatchesFields(lt, ms[..k + 1], top, pageWidth, search) ==
      MatchesFields(lt, ms[..k], top, pageWidth, search) + MatchField(lt, ms[k], top, pageWidth, search)
  {
    assert ms[..k + 1][..k] == ms[..k];
  }

  function LineFields(line: TextLine, pageWidth: real, search: string -> seq<Rect>): seq<Field>
  {
    var lt := LineText(line);
    MatchesFields(lt, Scan(lt, 0, NativeLabel), line.top, pageWidth, search)
  }

  function LinesFields(lines: seq<TextLine>, pageWidth: real, search: string -> seq<Rect>): seq<Field>
  {
    if lines == [] then []
    else LinesFields(lines[..|lines| - 1], pageWidth, search) + LineFields(lines[|lines| - 1], pageWidth, search)
  }

  function BlocksFields(blocks: seq<Block>, pageWidth: real, search: string -> seq<Rect>): seq<Field>
  {
    if blocks == [] then []
    else BlocksFields(blocks[..|blocks| - 1], pageWidth, search) + LinesFields(blocks[|blocks| - 1].lines, pageWidth, search)
  }

  /** The label strategy over a page's layout. */
  function LabelFieldsSpec(blocks: seq<Block>, pageWidth: real, search: string -> seq<Rect>): seq<Field>
  {
    BlocksFields(TextBlocks(blocks), pageWidth, search)
  }

  /** The field for one label: the first hit of its needle on the line, if wide enough. */
  method FindMatchField(lt: string, m: Span, top: real, pageWidth: real, search: string -> seq<Rect>)
    returns (fields: seq<Field>)
    requires m.start <= m.colon <= |lt|
    ensures fields == MatchField(lt, m, top, pageWidth, search)
  {
    fields := [];
    var hits := search(Strip(lt[m.start..m.colon]) + ":");
    var j := 0;
    while j < |hits|
      invariant j <= |hits|
      invariant forall i :: 0 <= i < j ==> !NearLine(hits[i], top)
    {
      var li := hits[j];
      if Abs(li.y0 - top) < 5.0 {
        var fx0 := li.x1 + 2.0;
        var fx1 := Min(fx0 + 150.0, pageWidth - 20.0);
        if fx1 - fx0 > 20.0 {
          fields := [Field(TextBox, Rect(fx0, li.y0, fx1, li.y1))];
        }
        assert FirstNear(hits, top) == Some(j);
        return;
      }
      j := j + 1;
    }
  }

  /** The fields of one line: for each label, the first search hit on the line. */
  method FindLineLabelFields(line: TextLine, pageWidth: real, search: string -> seq<Rect>)
    returns (fields: seq<Field>)
    ensures fields == LineFields(line, pageWidth, search)
  {
    var lt := Strip(Concat(line.spans));
    var labels := Scan(lt, 0, NativeLabel);
    fields := [];
    for k := 0 to |labels|
      invariant fields == MatchesFields(lt, labels[..k], line.top, pageWidth, search)
    {
      MatchesFieldsStep(lt, labels, k, line.top, pageWidth, search);
      var found := FindMatchField(lt, labels[k], line.top, pageWidth, search);
      fields := fields + found;
    }
    assert labels[..|labels|] == labels;
  }

  /** The fields of the lines of one block, line by line. */
  method FindLinesLabelFields(lines: seq<TextLine>, pageWidth: real, search: string -> seq<Rect>)
    returns (fields: seq<Field>)
    ensures fields == LinesFields(lines, pageWidth, search)
  {
    fields := [];
    for l := 0 to |lines|
      invariant fields == LinesFields(lines[..l], pageWidth, search)
    {
      assert lines[..l + 1][..l] == lines[..l];
      var lineFields := FindLineLabelFields(lines[l], pageWidth, search);
      fields := fields + lineFields;
    }
    assert lines[..|lines|] == lines;
  }

  /** The label strategy: every line of every text block, in layout order. */
  method FindLabelFields(blocks: seq<Block>, pageWidth: real, search: string -> seq<Rect>)
    returns (fields: seq<Field>)
    ensures fields == LabelFieldsSpec(blocks, pageWidth, search)
  {
    var textBlocks := TextBlocks(blocks);
    fields := [];
    for b := 0 to |textBlocks|
      invariant fields == BlocksFields(textBlocks[..b], pageWidth, search)
    {
      assert textBlocks[..b + 1][..b] == textBlocks[..b];
      var blockFields := FindLinesLabelFields(textBlocks[b].lines, pageWidth, search);
      fields := fields + blockFields;
    }
    assert textBlocks[..|textBlocks|] == textBlocks;
  }

  // ---------------------------------------------------------------------------
  // Properties.

  /** A label field is a text field more than 20 and at most 150 units wide, ending at least
      20 units before the page edge (`LabelFieldAt` adds where it starts and how tall it is). */
  predicate LabelFieldShape(f: Field, pageWidth: real)
  {
    f.kind == TextBox && 20.0 < f.rect.Width() <= 150.0 && f.rect.x1 <= pageWidth - 20.0
  }

  lemma LabelFieldAt(hit: Rect, pageWidth: real)
    ensures var f := LabelField(hit, pageWidth);
      f.Some? ==> (LabelFieldShape(f.value, pageWidth) &&
                   f.value.rect.x0 == hit.x1 + 2.0 && f.value.rect.y0 == hit.y0 && f.value.rect.y1 == hit.y1)
    ensures LabelField(hit, pageWidth).Some? <==> pageWidth - hit.x1 > 42.0
  {
  }

  /** Each label match yields at most one field, of the right shape. */
  lemma {:induction false} MatchesFieldsShape(lt: string, ms: seq<Span>, top: real, pageWidth: real, search: string -> seq<Rect>)
    requires forall k :: 0 <= k < |ms| ==> ms[k].start <= ms[k].colon <= |lt|
    ensures var fs := MatchesFields(lt, ms, top, pageWidth, search);
      |fs| <= |ms| && forall k :: 0 <= k < |fs| ==> LabelFieldShape(fs[k], pageWidth)
  {
    if ms != [] {
      MatchesFieldsShape(lt, ms[..|ms| - 1], top, pageWidth, search);
      var m := ms[|ms| - 1];
      var hits := search(LabelKey(lt, m));
      var j := FirstNear(hits, top);
      if j.Some? {
        LabelFieldAt(hits[j.value], pageWidth);
      }
    }
  }

  /** `f` is the field placed at the first of `hits` that lies on the line at `top`. */
  predicate PlacedAtFirstNear(f: Field, hits: seq<Rect>, top: real, pageWidth: real)
  {
    match FirstNear(hits, top)
    case None => false
    case Some(j) => LabelField(hits[j], pageWidth) == Some(f)
  }

  /** `f` is placed at the first on-line hit of the needle of one of the matches `ms`. */
  predicate PlacedByMatch(f: Field, lt: string, ms: seq<Span>, top: real, pageWidth: real, search: string -> seq<Rect>)
  {
    exists k :: 0 <= k < |ms| && ms[k].start <= ms[k].colon <= |lt| &&
      PlacedAtFirstNear(f, search(LabelKey(lt, ms[k])), top, pageWidth)
  }

  /** Each field of a list of label matches is placed at the first on-line hit of one match's needle. */
  lemma {:induction false} MatchesFieldsPlaced(lt: string, ms: seq<Span>, top: real, pageWidth: real, search: string -> seq<Rect>)
    requires forall k :: 0 <= k < |ms| ==> ms[k].start <= ms[k].colon <= |lt|
    ensures var fs := MatchesFields(lt, ms, top, pageWidth, search);
      forall i :: 0 <= i < |fs| ==> PlacedByMatch(fs[i], lt, ms, top, pageWidth, search)
  {
    if ms != [] {
      var init := ms[..|ms| - 1];
      var m := ms[|ms| - 1];
      MatchesFieldsPlaced(lt, init, top, pageWidth, search);
      assert forall j :: 0 <= j < |MatchesFields(lt, init, top, pageWidth, search)| ==>
        PlacedByMatch(MatchesFields(lt, init, top, pageWidth, search)[j], lt, init, top, pageWidth, search);
      var before := MatchesFields(lt, init, top, pageWidth, search);
      var fs := MatchesFields(lt, ms, top, pageWidth, search);
      forall i | 0 <= i < |fs| ensures PlacedByMatch(fs[i], lt, ms, top, pageWidth, search) {
        if i < |before| {
          var k :| 0 <= k < |init| && init[k].start <= init[k].colon <= |lt| &&
            PlacedAtFirstNear(before[i], search(LabelKey(lt, init[k])), top, pageWidth);
          assert ms[k] == init[k];
        } else {
          assert fs[i] == MatchField(lt, m, top, pageWidth, search)[i - |before|];
          assert PlacedAtFirstNear(fs[i], search(LabelKey(lt, m)), top, pageWidth);
          assert ms[|ms| - 1] == m;
        }
      }
    }
  }

  /** A line yields at most one field per native label match. Each field is shaped as a label
      field and is the field `LabelField` places at the first hit, within 5 units of the line's top,
      of the needle of one native match of the line. */
  lemma LineFieldsShape(line: TextLine, pageWidth: real, search: string -> seq<Rect>)
    ensures var lt := LineText(line);
      var ms := Scan(lt, 0, NativeLabel);
      var fs := LineFields(line, pageWidth, search);
      |fs| <= |ms| && (forall k :: 0 <= k < |fs| ==> LabelFieldShape(fs[k], pageWidth)) &&
      forall i :: 0 <= i < |fs| ==> PlacedByMatch(fs[i], lt, ms, line.top, pageWidth, search)
  {
    var lt := LineText(line);
    MatchesFieldsShape(lt, Scan(lt, 0, NativeLabel), line.top, pageWidth, search);
    MatchesFieldsPlaced(lt, Scan(lt, 0, NativeLabel), line.top, pageWidth, search);
  }

  lemma {:induction false} LinesFieldsShape(lines: seq<TextLine>, pageWidth: real, search: string -> seq<Rect>)
    ensures forall k :: 0 <= k < |LinesFields(lines, pageWidth, search)| ==>
      LabelFieldShape(LinesFields(lines, pageWidth, search)[k], pageWidth)
  {
    if lines != [] {
      LinesFieldsShape(lines[..|lines| - 1], pageWidth, search);
      LineFieldsShape(lines[|lines| - 1], pageWidth, search);
    }
  }

  lemma {:induction false} BlocksFieldsShape(blocks: seq<Block>, pageWidth: real, search: string -> seq<Rect>)
    ensures forall k :: 0 <= k < |BlocksFields(blocks, pageWidth, search)| ==>
      LabelFieldShape(BlocksFields(blocks, pageWidth, search)[k], pageWidth)
  {
    if blocks != [] {
      BlocksFieldsShape(blocks[..|blocks| - 1], pageWidth, search);
      LinesFieldsShape(blocks[|blocks| - 1].lines, pageWidth, search);
    }
  }

  /** Every field of the label strategy is a text field 20 to 150 units wide. */
  lemma LabelFieldsShape(blocks: seq<Block>, pageWidth: real, search: string -> seq<Rect>)
    ensures forall k :: 0 <= k < |LabelFieldsSpec(blocks, pageWidth, search)| ==>
      LabelFieldShape(LabelFieldsSpec(blocks, pageWidth, search)[k], pageWidth)
  {
    BlocksFieldsShape(TextBlocks(blocks), pageWidth, search);
  }

  /** Labels of the native pattern never contain a digit, unlike those of the markup pattern. */
  lemma NativeLabelsHaveNoDigits(lt: string, k: nat)
    requires k < |Scan(lt, 0, NativeLabel)|
    ensures var m := Scan(lt, 0, NativeLabel)[k];
      forall i :: m.start <= i < m.colon ==> !IsAsciiDigit(lt[i])
  {
  }

  lemma DigitLabelInMarkup()
    ensures Scan("Line 1:", 0, MarkdownLabel) == [Span(0, 6)]
  {
    RunEndAt("Line 1:", 0, 6, MarkdownLabel);
    assert Scan("Line 1:", 7, MarkdownLabel) == [];
  }

  lemma DigitLabelNotNative()
    ensures Scan("Line 1:", 0, NativeLabel) == []
  {
    var s := "Line 1:";
    ScanIsLeftmost(s, 0, NativeLabel);
    forall p | 0 <= p ensures !MatchAt(s, p, NativeLabel) {
      NoNativeMatchAt(s, p);
    }
  }

  /** In "Line 1:" the run of letters and spaces from any position stops before the colon. */
  lemma NoNativeMatchAt(s: string, p: nat)
    requires s == "Line 1:"
    ensures !MatchAt(s, p, NativeLabel)
  {
    if p < 5 {
      RunEndAt(s, p, 5, NativeLabel);
    } else if p < |s| {
      RunEndAt(s, p, p, NativeLabel);
    }
  }

  /** On "Line 1:" the markup pattern reports a label and the native pattern none. */
  lemma DigitLabelOnlyInMarkup()
    ensures Scan("Line 1:", 0, MarkdownLabel) == [Span(0, 6)]
    ensures Scan("Line 1:", 0, NativeLabel) == []
  {
    DigitLabelInMarkup();
    DigitLabelNotNative();
  }
}
