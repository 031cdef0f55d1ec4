/**
 * Field detection for one page. A page with a text layer uses the native strategies:
 * every checkbox glyph hit, then the underscore runs, and the "Label:" fields only when
 * there are no underscore runs. A page without a text layer uses the OCR path on the
 * markup of the first OCR page carrying its index, when the OCR service produced one.
 * Either way the result is deduplicated.
 */
module Detect {
  import opened Geometry
  import Markdown
  import Matcher
  import NativeLabels
  import Underscore
  import OcrFields
  import Dedup

  /** One page of the OCR service's answer: the page index it reports and its markup. */
  datatype MdPage = MdPage(index: int, markdown: string)

  /** What detection sees of a page: its layout blocks, its width, its text search and the
      text boxes recognised on its rendering. */
  datatype Page = Page(
    blocks: seq<NativeLabels.Block>,
    width: real,
    search: string -> seq<Rect>,
    positions: seq<Matcher.TextPosition>)

  /** Every located glyph as a checkbox field, in the order found. */
  function CheckboxFields(locations: seq<Rect>): (fields: seq<Field>)
    ensures |fields| == |locations|
    ensures forall k :: 0 <= k < |locations| ==> fields[k] == Field(Checkbox, locations[k])
  {
    seq(|locations|, k requires 0 <= k < |locations| => Field(Checkbox, locations[k]))
  }

  /** The underscore runs of a page, or its label fields when there are none. */
  function TextFields(page: Page): seq<Field>
  {
    var uf := Underscore.UnderscoreSpec(page.search("___"));
    if uf == [] then NativeLabels.LabelFieldsSpec(page.blocks, page.width, page.search) else uf
  }

  /** The native strategies' fields, before deduplication. */
  function NativeFields(page: Page): seq<Field>
  {
    CheckboxFields(NativeLabels.GlyphHits(page.search, Markdown.AllGlyphs)) + TextFields(page)
  }

  /** The markup of the first OCR page with the given index, or the empty text. */
  function PageMarkdown(pages: seq<MdPage>, pageNum: int): (md: string)
  {
    if pages == [] then []
    else if pages[0].index == pageNum then pages[0].markdown
    else PageMarkdown(pages[1..], pageNum)
  }

  /** The fields of a page before deduplication. */
  function RawFields(page: Page, pageNum: int, mdPages: Option<seq<MdPage>>): seq<Field>
  {
    if |NativeLabels.TextBlocks(page.blocks)| > 0 then NativeFields(page)
    else if mdPages.Some? then
      var md := PageMarkdown(mdPages.value, pageNum);
      if md != [] then OcrFields.OcrFieldsSpec(page.width, page.positions, md) else []
    else []
  }

  function DetectSpec(page: Page, pageNum: int, mdPages: Option<seq<MdPage>>): seq<Field>
  {
    Dedup.DedupSpec(RawFields(page, pageNum, mdPages))
  }

  /** Looks up the markup of a page among the OCR pages, stopping at the first match. */
  method FindPageMarkdown(pages: seq<MdPage>, pageNum: int) returns (md: string)
    ensures md == PageMarkdown(pages, pageNum)
  {
    md := [];
    for k := 0 to |pages|
      invariant PageMarkdown(pages, pageNum) == PageMarkdown(pages[k..], pageNum)
    {
      assert pages[k..][1..] == pages[k + 1..];
      if pages[k].index == pageNum {
        md := pages[k].markdown;
        return;
      }
    }
  }

  /** The native strategies on a page with a text layer. */
  method DetectNativeFields(page: Page) returns (fields: seq<Field>)
    ensures fields == NativeFields(page)
  {
    var locations := NativeLabels.FindCheckboxLocations(page.search);
    fields := [];
    for k := 0 to |locations|
      invariant fields == CheckboxFields(locations[..k])
    {
      assert CheckboxFields(locations[..k + 1]) == CheckboxFields(locations[..k]) + [Field(Checkbox, locations[k])];
      fields := fields + [Field(Checkbox, locations[k])];
    }
    assert locations[..|locations|] == locations;
    var uf := Underscore.FindUnderscoreFields(page.search("___"));
    fields := fields + uf;
    if uf == [] {
      var labels := NativeLabels.FindLabelFields(page.blocks, page.width, page.search);
      fields := fields + labels;
    }
  }

  method DetectFields(page: Page, pageNum: int, mdPages: Option<seq<MdPage>>) returns (unique: seq<Field>)
    ensures unique == DetectSpec(page, pageNum, mdPages)
  {
    var textBlocks := NativeLabels.TextBlocks(page.blocks);
    var fields: seq<Field> := [];
    if |textBlocks| > 0 {
      fields := DetectNativeFields(page);
    } else if mdPages.Some? {
      var pageMd := FindPageMarkdown(mdPages.value, pageNum);
      if pageMd != [] {
        fields := OcrFields.DetectFieldsOcr(page.width, page.positions, pageMd);
      }
    }
    assert fields == RawFields(page, pageNum, mdPages);
    unique := Dedup.DedupFields(fields);
  }

  // ---------------------------------------------------------------------------
  // Properties.

  /** The markup used is that of the first OCR page with the index; without one it is empty. */
  lemma {:induction false} PageMarkdownIsFirstMatch(pages: seq<MdPage>, pageNum: int)
    ensures var md := PageMarkdown(pages, pageNum);
      (forall k :: 0 <= k < |pages| ==> pages[k].index != pageNum) ==> md == []
    ensures var md := PageMarkdown(pages, pageNum);
      forall k :: (0 <= k < |pages| && pages[k].index == pageNum &&
                   forall j :: 0 <= j < k ==> pages[j].index != pageNum) ==> md == pages[k].markdown
  {
    if pages != [] {
      PageMarkdownIsFirstMatch(pages[1..], pageNum);
      forall k | 0 < k < |pages| ensures pages[1..][k - 1] == pages[k] {
      }
    }
  }

  /** Without a text layer, and with no OCR answer or an empty markup for the page (which is
      also what a missing page gives, by PageMarkdownIsFirstMatch), no field is detected. */
  lemma NoTextNoMarkupNoFields(page: Page, pageNum: int, mdPages: Option<seq<MdPage>>)
    requires |NativeLabels.TextBlocks(page.blocks)| == 0
    requires mdPages.None? || PageMarkdown(mdPages.value, pageNum) == []
    ensures DetectSpec(page, pageNum, mdPages) == []
  {
    assert RawFields(page, pageNum, mdPages) == [];
  }

  /** On a page with a text layer, the checkbox hits come first, then only text fields; the
      label fields are used exactly when the search for underscores finds nothing. */
  lemma NativeOrder(page: Page)
    ensures var hits := NativeLabels.GlyphHits(page.search, Markdown.AllGlyphs);
      var fs := NativeFields(page);
      |hits| <= |fs| &&
      (forall k :: 0 <= k < |hits| ==> fs[k] == Field(Checkbox, hits[k])) &&
      (forall k :: |hits| <= k < |fs| ==> fs[k].kind == TextBox)
    ensures page.search("___") != [] ==>
      TextFields(page) == Underscore.UnderscoreSpec(page.search("___"))
    ensures page.search("___") == [] ==>
      TextFields(page) == NativeLabels.LabelFieldsSpec(page.blocks, page.width, page.search)
  {
    Underscore.UnderscoreCount(page.search("___"));
    NativeLabels.LabelFieldsShape(page.blocks, page.width, page.search);
    var uf := Underscore.UnderscoreSpec(page.search("___"));
    assert forall k :: 0 <= k < |uf| ==> uf[k].kind == TextBox;
  }

  /** The detected fields have area, and no two of one kind overlap. */
  lemma DetectIsClean(page: Page, pageNum: int, mdPages: Option<seq<MdPage>>)
    ensures Dedup.Clean(DetectSpec(page, pageNum, mdPages))
  {
    Dedup.DedupIsClean(RawFields(page, pageNum, mdPages));
  }

  /** Running the final pass again changes nothing. */
  lemma DetectIsStable(page: Page, pageNum: int, mdPages: Option<seq<MdPage>>)
    ensures Dedup.DedupSpec(DetectSpec(page, pageNum, mdPages)) == DetectSpec(page, pageNum, mdPages)
  {
    Dedup.DedupIdempotent(RawFields(page, pageNum, mdPages));
  }
}
