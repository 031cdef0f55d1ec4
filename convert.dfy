/**
 * The document pass: detection runs page by page, every detected field becomes a widget
 * named after its page and its position on the page (both counted from 1), and the number
 * of widgets added is reported. The OCR service is consulted only when some page has no
 * text layer.
 */
module Convert {
  import opened Geometry
  import opened Text
  import NativeLabels
  import Detect

  // ---------------------------------------------------------------------------
  // Widget names.

  function DigitChar(d: nat): (c: char)
    requires d < 10
    ensures IsAsciiDigit(c)
  {
    ('0' as int + d) as char
  }

  /** The decimal numeral of `n`, without leading zeros. */
  function Decimal(n: nat): (s: string)
    ensures s != []
    ensures forall k :: 0 <= k < |s| ==> IsAsciiDigit(s[k])
  {
    if n < 10 then [DigitChar(n)] else Decimal(n / 10) + [DigitChar(n % 10)]
  }

  /** The value of a numeral. */
  function NumeralValue(s: string): int
  {
    if s == [] then 0 else NumeralValue(s[..|s| - 1]) * 10 + (s[|s| - 1] as int - '0' as int)
  }

  /** Reading back a numeral gives the number. */
  lemma {:induction false} DecimalRoundTrip(n: nat)
    ensures NumeralValue(Decimal(n)) == n
  {
    if n >= 10 {
      DecimalRoundTrip(n / 10);
      var s := Decimal(n);
      assert s[..|s| - 1] == Decimal(n / 10);
    }
  }

  /** The name of the `index`-th field (from 0) of page `page` (from 0). */
  function FieldName(page: nat, index: nat): string
  {
    "page" + Decimal(page + 1) + "_field" + Decimal(index + 1)
  }

  /** Two positions that share a name are the same position. */
  lemma FieldNameInjective(p: nat, i: nat, q: nat, j: nat)
    requires FieldName(p, i) == FieldName(q, j)
    ensures p == q && i == j
  {
    NameParts(Decimal(p + 1), Decimal(i + 1), Decimal(q + 1), Decimal(j + 1));
    DecimalRoundTrip(p + 1);
    DecimalRoundTrip(q + 1);
    DecimalRoundTrip(i + 1);
    DecimalRoundTrip(j + 1);
  }

  predicate AllDigits(s: string)
  {
    forall k :: 0 <= k < |s| ==> IsAsciiDigit(s[k])
  }

  /** The page numeral of a name ends at the first '_', so equal names have equal parts. */
  lemma NameParts(a: string, b: string, c: string, d: string)
    requires AllDigits(a) && AllDigits(c)
    requires "page" + a + "_field" + b == "page" + c + "_field" + d
    ensures a == c && b == d
  {
    NameLayout(a, b);
    NameLayout(c, d);
    var s := "page" + a + "_field" + b;
    assert |a| == |c|;
    assert a == s[4..4 + |a|] == c;
  }

  /** Where the parts of a name sit. */
  lemma NameLayout(a: string, b: string)
    requires AllDigits(a)
    ensures var s := "page" + a + "_field" + b;
      |s| == 10 + |a| + |b| && s[4 + |a|] == '_' &&
      (forall k :: 4 <= k < 4 + |a| ==> s[k] != '_') &&
      s[4..4 + |a|] == a && s[10 + |a|..] == b
  {
    var s := "page" + a + "_field" + b;
    assert s == "page" + a + ("_field" + b);
    assert s[4..4 + |a|] == a;
    assert s[10 + |a|..] == b;
  }

  // ---------------------------------------------------------------------------
  // The document.

  /** A widget added to the document: its name, its kind and its rectangle. */
  datatype Widget = Widget(name: string, kind: Kind, rect: Rect)

  /** The widgets of one page, named in detection order. */
  function PageWidgets(page: nat, fields: seq<Field>): (ws: seq<Widget>)
    ensures |ws| == |fields|
    ensures forall j :: 0 <= j < |fields| ==> ws[j] == Widget(FieldName(page, j), fields[j].kind, fields[j].rect)
  {
    seq(|fields|, j requires 0 <= j < |fields| => Widget(FieldName(page, j), fields[j].kind, fields[j].rect))
  }

  /** OCR is needed when some page has no text layer. */
  predicate NeedsOcr(pages: seq<Detect.Page>)
  {
    exists i :: 0 <= i < |pages| && |NativeLabels.TextBlocks(pages[i].blocks)| == 0
  }

  /** The markup pages used by detection: the service's answer when OCR is needed and the service
      answered, nothing otherwise. */
  function OcrInput(pages: seq<Detect.Page>, answer: Option<seq<Detect.MdPage>>): Option<seq<Detect.MdPage>>
  {
    if NeedsOcr(pages) then answer else None
  }

  /** The fields detected on every page, page by page. */
  function DetectedFields(pages: seq<Detect.Page>, mdPages: Option<seq<Detect.MdPage>>): (perPage: seq<seq<Field>>)
    ensures |perPage| == |pages|
    ensures forall i :: 0 <= i < |pages| ==> perPage[i] == Detect.DetectSpec(pages[i], i, mdPages)
  {
    seq(|pages|, i requires 0 <= i < |pages| => Detect.DetectSpec(pages[i], i, mdPages))
  }

  /** The widgets of the pages in order, each page's named by its position. */
  function DocumentWidgets(perPage: seq<seq<Field>>): seq<Widget>
  {
    if perPage == [] then []
    else DocumentWidgets(perPage[..|perPage| - 1]) + PageWidgets(|perPage| - 1, perPage[|perPage| - 1])
  }

  lemma DocumentWidgetsStep(perPage: seq<seq<Field>>, i: nat)
    requires i < |perPage|
    ensures DocumentWidgets(perPage[..i + 1]) == DocumentWidgets(perPage[..i]) + PageWidgets(i, perPage[i])
  {
    assert perPage[..i + 1][..i] == perPage[..i];
  }

  method AnyPageWithoutText(pages: seq<Detect.Page>) returns (needs: bool)
    ensures needs == NeedsOcr(pages)
  {
    for i := 0 to |pages|
      invariant forall k :: 0 <= k < i ==> |NativeLabels.TextBlocks(pages[k].blocks)| > 0
    {
      if |NativeLabels.TextBlocks(pages[i].blocks)| == 0 {
        return true;
      }
    }
    return false;
  }

  /** Adds a widget for each field of page `page`, in order. */
  method AddPageWidgets(page: nat, fields: seq<Field>) returns (added: seq<Widget>)
    ensures added == PageWidgets(page, fields)
  {
    added := [];
    for j := 0 to |fields|
      invariant added == PageWidgets(page, fields[..j])
    {
      assert PageWidgets(page, fields[..j + 1]) == PageWidgets(page, fields[..j]) + [Widget(FieldName(page, j), fields[j].kind, fields[j].rect)];
      added := added + [Widget(FieldName(page, j), fields[j].kind, fields[j].rect)];
    }
    assert fields[..|fields|] == fields;
  }

  /** Adds a widget for every detected field of every page and counts them. `answer` stands for
      the OCR service's pages, or None when it failed. */
  method ConvertDocument(pages: seq<Detect.Page>, answer: Option<seq<Detect.MdPage>>)
    returns (widgets: seq<Widget>, total: nat)
    ensures widgets == DocumentWidgets(DetectedFields(pages, OcrInput(pages, answer)))
    ensures total == |widgets|
  {
    var needsOcr := AnyPageWithoutText(pages);
    var mdPages: Option<seq<Detect.MdPage>> := None;
    if needsOcr {
      mdPages := answer;
    }
    assert mdPages == OcrInput(pages, answer);
    ghost var perPage := DetectedFields(pages, mdPages);
    widgets := [];
    total := 0;
    for i := 0 to |pages|
      invariant widgets == DocumentWidgets(perPage[..i])
      invariant total == |widgets|
    {
      DocumentWidgetsStep(perPage, i);
      var fields := Detect.DetectFields(pages[i], i, mdPages);
      assert fields == perPage[i];
      var added := AddPageWidgets(i, fields);
      widgets := widgets + added;
      total := total + |added|;
    }
    assert perPage[..|pages|] == perPage;
  }

  // ---------------------------------------------------------------------------
  // Properties.

  /** Every widget name of the first `n` pages names a field of one of those pages. */
  ghost predicate NamedWithin(ws: seq<Widget>, n: nat)
  {
    forall k :: 0 <= k < |ws| ==> NamesFieldBefore(ws[k], n)
  }

  /** The widget is named after some field of one of the first `n` pages. */
  ghost predicate NamesFieldBefore(w: Widget, n: nat)
  {
    exists p: nat, i: nat :: p < n && w.name == FieldName(p, i)
  }

  predicate DistinctNames(ws: seq<Widget>)
  {
    forall k, l :: 0 <= k < l < |ws| ==> ws[k].name != ws[l].name
  }

  /** Adding page `n`'s widgets after those of the first `n` pages names fields of the first n + 1 pages. */
  lemma AppendPageNamedWithin(before: seq<Widget>, n: nat, fields: seq<Field>)
    requires NamedWithin(before, n)
    ensures NamedWithin(before + PageWidgets(n, fields), n + 1)
  {
    var ws := before + PageWidgets(n, fields);
    forall k | 0 <= k < |ws| ensures NamesFieldBefore(ws[k], n + 1) {
      if k < |before| {
        assert NamesFieldBefore(before[k], n);
        var p: nat, i: nat :| p < n && before[k].name == FieldName(p, i);
        assert ws[k].name == FieldName(p, i);
      } else {
        assert ws[k].name == FieldName(n, k - |before|);
      }
    }
  }

  /** Page `n`'s widget names differ from each other and from those of the first `n` pages. */
  lemma AppendPageDistinct(before: seq<Widget>, n: nat, fields: seq<Field>)
    requires NamedWithin(before, n) && DistinctNames(before)
    ensures DistinctNames(before + PageWidgets(n, fields))
  {
    var ws := before + PageWidgets(n, fields);
    forall k, l | 0 <= k < l < |ws| ensures ws[k].name != ws[l].name {
      if l >= |before| {
        assert ws[l].name == FieldName(n, l - |before|);
        if k < |before| {
          assert NamesFieldBefore(before[k], n);
          var p: nat, i: nat :| p < n && before[k].name == FieldName(p, i);
          if ws[k].name == ws[l].name {
            FieldNameInjective(p, i, n, l - |before|);
          }
        } else {
          assert ws[k].name == FieldName(n, k - |before|);
          if ws[k].name == ws[l].name {
            FieldNameInjective(n, k - |before|, n, l - |before|);
          }
        }
      } else {
        assert ws[k] == before[k] && ws[l] == before[l];
      }
    }
  }

  /** No two widgets of the document share a name. */
  lemma {:induction false} DocumentNamesDistinct(perPage: seq<seq<Field>>)
    ensures NamedWithin(DocumentWidgets(perPage), |perPage|)
    ensures DistinctNames(DocumentWidgets(perPage))
  {
    var n := |perPage|;
    if n > 0 {
      DocumentNamesDistinct(perPage[..n - 1]);
      var before := DocumentWidgets(perPage[..n - 1]);
      var added := PageWidgets(n - 1, perPage[n - 1]);
      var ws := before + added;
      AppendPageNamedWithin(before, n - 1, perPage[n - 1]);
      AppendPageDistinct(before, n - 1, perPage[n - 1]);
      assert DocumentWidgets(perPage) == ws;
    }
  }

  /** The sum of the pages' field counts. */
  function FieldCount(perPage: seq<seq<Field>>): nat
  {
    if perPage == [] then 0 else FieldCount(perPage[..|perPage| - 1]) + |perPage[|perPage| - 1]|
  }

  /** The count reported is the sum of the pages' detected field counts. */
  lemma {:induction false} TotalIsSumOfPages(perPage: seq<seq<Field>>)
    ensures |DocumentWidgets(perPage)| == FieldCount(perPage)
  {
    if perPage != [] {
      TotalIsSumOfPages(perPage[..|perPage| - 1]);
    }
  }
}
