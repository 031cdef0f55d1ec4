/**
 * The OCR-path field synthesiser: walks the candidates the markdown extractor found,
 * anchors each to the best unused recognised text box, and places a checkbox to the
 * left of its option text or a text field to the right of its label. Every anchored
 * box is marked used before the next candidate is matched.
 */
module OcrFields {
  import opened Geometry
  import opened Markdown
  import opened Matcher

  /** A placed field together with the index of the text box it was anchored to. */
  datatype Placed = Placed(field: Field, source: nat)

  /** The synthesiser's state: the fields placed so far and the text boxes used so far. */
  datatype Synthesis = Synthesis(placed: seq<Placed>, used: set<nat>)

  /** The checkbox for an option: from 12 to 1 units left of the option text, same height. */
  function CheckboxRect(text: Rect): Rect
  {
    Rect(text.x0 - 12.0, text.y0, text.x0 - 1.0, text.y1)
  }

  /** `other` starts on the same line as `anchor` (top edges within 5) and more than 5 units to its right. */
  predicate NeighbourOf(anchor: Rect, other: Rect)
  {
    Abs(other.y0 - anchor.y0) < 5.0 && other.x0 > anchor.x1 + 5.0
  }

  /** The right limit for the text field of box `idx`, from boxes 0..n-1: the page width less 20,
      lowered to 2 units before every neighbour, used or not. */
  function RightLimit(pageWidth: real, positions: seq<TextPosition>, idx: nat, n: nat): real
    requires idx < |positions| && n <= |positions|
  {
    if n == 0 then pageWidth - 20.0
    else
      var b := RightLimit(pageWidth, positions, idx, n - 1);
      var other := positions[n - 1].rect;
      if n - 1 != idx && NeighbourOf(positions[idx].rect, other) then Min(b, other.x0 - 2.0) else b
  }

  /** The text field for label box `idx`: 2 units right of the label, same height, its right edge
      the limit clamped to between 20 and 200 units of width. */
  function TextFieldRect(pageWidth: real, positions: seq<TextPosition>, idx: nat): Rect
    requires idx < |positions|
  {
    var anchor := positions[idx].rect;
    var x0 := anchor.x1 + 2.0;
    var limit := RightLimit(pageWidth, positions, idx, |positions|);
    Rect(x0, anchor.y0, Max(x0 + 20.0, Min(limit, x0 + 200.0)), anchor.y1)
  }

  /** The field placed for a candidate anchored at box `idx`, unless the text field is 15 units
      wide or less. */
  function NewField(pageWidth: real, positions: seq<TextPosition>, c: Candidate, idx: nat): Option<Field>
    requires idx < |positions|
  {
    match c.kind
    case Checkbox => Some(Field(Checkbox, CheckboxRect(positions[idx].rect)))
    case TextBox =>
      var r := TextFieldRect(pageWidth, positions, idx);
      if r.x1 - r.x0 > 15.0 then Some(Field(TextBox, r)) else None
  }

  /** One candidate anchored at `m` (when it found a box): mark the box used and place its field. */
  function Place(pageWidth: real, positions: seq<TextPosition>, st: Synthesis, c: Candidate, m: Option<nat>): Synthesis
    requires m.Some? ==> m.value < |positions|
  {
    match m
    case None => st
    case Some(idx) =>
      var used := st.used + {idx};
      match NewField(pageWidth, positions, c, idx)
      case None => Synthesis(st.placed, used)
      case Some(f) => Synthesis(st.placed + [Placed(f, idx)], used)
  }

  /** One candidate: match it against the unused boxes, then place it. */
  function Step(pageWidth: real, positions: seq<TextPosition>, st: Synthesis, c: Candidate): Synthesis
  {
    Place(pageWidth, positions, st, c, MatchOf(c.labelText, positions, st.used))
  }

  /** The synthesiser over a list of candidates, in order. */
  function Synthesize(pageWidth: real, positions: seq<TextPosition>, cands: seq<Candidate>): Synthesis
  {
    if cands == [] then Synthesis([], {})
    else Step(pageWidth, positions, Synthesize(pageWidth, positions, cands[..|cands| - 1]), cands[|cands| - 1])
  }

  lemma SynthesizeStep(pageWidth: real, positions: seq<TextPosition>, cands: seq<Candidate>, i: nat)
    requires i < |cands|
    ensures Synthesize(pageWidth, positions, cands[..i + 1]) ==
      Step(pageWidth, positions, Synthesize(pageWidth, positions, cands[..i]), cands[i])
  {
    assert cands[..i + 1][..i] == cands[..i];
  }

  function FieldsOf(placed: seq<Placed>): (fields: seq<Field>)
    ensures |fields| == |placed|
    ensures forall k :: 0 <= k < |placed| ==> fields[k] == placed[k].field
  {
    seq(|placed|, k requires 0 <= k < |placed| => placed[k].field)
  }

  lemma FieldsOfSnoc(placed: seq<Placed>, p: Placed)
    ensures FieldsOf(placed + [p]) == FieldsOf(placed) + [p.field]
  {
  }

  /** The fields of the OCR path for one page: candidates from the page's markup, positions
      from the recognised text boxes. */
  function OcrFieldsSpec(pageWidth: real, positions: seq<TextPosition>, markdown: string): seq<Field>
  {
    FieldsOf(Synthesize(pageWidth, positions, ExtractSpec(markdown)).placed)
  }

  // ---------------------------------------------------------------------------
  // The synthesiser itself.

  /** Scans every other box for the nearest neighbour on the label's line. */
  method NeighbourLimit(pageWidth: real, positions: seq<TextPosition>, idx: nat) returns (fieldX1: real)
    requires idx < |positions|
    ensures fieldX1 == RightLimit(pageWidth, positions, idx, |positions|)
  {
    var anchor := positions[idx].rect;
    fieldX1 := pageWidth - 20.0;
    for j := 0 to |positions|
      invariant fieldX1 == RightLimit(pageWidth, positions, idx, j)
    {
      var other := positions[j].rect;
      if j != idx && Abs(other.y0 - anchor.y0) < 5.0 && other.x0 > anchor.x1 + 5.0 {
        fieldX1 := Min(fieldX1, other.x0 - 2.0);
      }
    }
  }

  /** The field for a candidate anchored at box `idx`: a checkbox left of the option text, or a
      text field right of the label reaching to the nearest neighbour, clamped. */
  method FieldFor(pageWidth: real, positions: seq<TextPosition>, c: Candidate, idx: nat)
    returns (f: Option<Field>)
    requires idx < |positions|
    ensures f == NewField(pageWidth, positions, c, idx)
  {
    var tp := positions[idx];
    if c.kind == Checkbox {
      var cbRect := Rect(tp.rect.x0 - 12.0, tp.rect.y0, tp.rect.x0 - 1.0, tp.rect.y1);
      return Some(Field(Checkbox, cbRect));
    }
    var fieldX0 := tp.rect.x1 + 2.0;
    var fieldX1 := NeighbourLimit(pageWidth, positions, idx);
    fieldX1 := Max(fieldX0 + 20.0, Min(fieldX1, fieldX0 + 200.0));
    if fieldX1 - fieldX0 > 15.0 {
      return Some(Field(TextBox, Rect(fieldX0, tp.rect.y0, fieldX1, tp.rect.y1)));
    }
    return None;
  }

  method DetectFieldsOcr(pageWidth: real, positions: seq<TextPosition>, markdown: string)
    returns (fields: seq<Field>)
    ensures fields == OcrFieldsSpec(pageWidth, positions, markdown)
  {
    var formFields := ExtractFormFields(markdown);
    var used: set<nat> := {};
    fields := [];
    ghost var placed: seq<Placed> := [];
    for i := 0 to |formFields|
      invariant Synthesis(placed, used) == Synthesize(pageWidth, positions, formFields[..i])
      invariant fields == FieldsOf(placed)
    {
      SynthesizeStep(pageWidth, positions, formFields, i);
      ghost var before := Synthesis(placed, used);
      var info := formFields[i];
      var m := FindLabelPosition(info.labelText, positions, used);
      if m.Some? {
        var idx := m.value;
        used := used + {idx};
        var f := FieldFor(pageWidth, positions, info, idx);
        if f.Some? {
          FieldsOfSnoc(placed, Placed(f.value, idx));
          fields := fields + [f.value];
          placed := placed + [Placed(f.value, idx)];
        }
      }
      assert Synthesis(placed, used) == Place(pageWidth, positions, before, info, m);
    }
    assert formFields[..|formFields|] == formFields;
  }

  // ---------------------------------------------------------------------------
  // Properties.

  /** The right limit is the least of the page width less 20 and of every neighbour's left edge
      less 2, whether or not that neighbour has been used. */
  lemma {:induction false} RightLimitIsMinimum(pageWidth: real, positions: seq<TextPosition>, idx: nat, n: nat)
    requires idx < |positions| && n <= |positions|
    ensures var b := RightLimit(pageWidth, positions, idx, n);
      b <= pageWidth - 20.0 &&
      (forall j :: 0 <= j < n && j != idx && NeighbourOf(positions[idx].rect, positions[j].rect) ==>
        b <= positions[j].rect.x0 - 2.0) &&
      (b == pageWidth - 20.0 ||
        exists j :: 0 <= j < n && j != idx && NeighbourOf(positions[idx].rect, positions[j].rect) &&
          b == positions[j].rect.x0 - 2.0)
  {
    if n > 0 {
      RightLimitIsMinimum(pageWidth, positions, idx, n - 1);
    }
  }

  /** A text field starts 2 units right of its label, spans the label's height and is between 20
      and 200 units wide; so the "wider than 15" test never rejects it. */
  lemma TextFieldShape(pageWidth: real, positions: seq<TextPosition>, idx: nat)
    requires idx < |positions|
    ensures var r := TextFieldRect(pageWidth, positions, idx);
      var anchor := positions[idx].rect;
      r.x0 == anchor.x1 + 2.0 && r.y0 == anchor.y0 && r.y1 == anchor.y1 &&
      20.0 <= r.Width() <= 200.0 && r.x1 - r.x0 > 15.0
  {
  }

  /** When the nearest neighbour leaves between 20 and 200 units, the field ends exactly 2 units
      before it. */
  lemma TextFieldStopsAtNeighbour(pageWidth: real, positions: seq<TextPosition>, idx: nat, j: nat)
    requires idx < |positions| && j < |positions| && j != idx
    requires NeighbourOf(positions[idx].rect, positions[j].rect)
    requires RightLimit(pageWidth, positions, idx, |positions|) == positions[j].rect.x0 - 2.0
    requires positions[idx].rect.x1 + 22.0 <= positions[j].rect.x0 - 2.0 <= positions[idx].rect.x1 + 202.0
    ensures TextFieldRect(pageWidth, positions, idx).x1 == positions[j].rect.x0 - 2.0
  {
  }

  /** The boxes the placed fields are anchored to. */
  function Sources(placed: seq<Placed>): (s: set<nat>)
    ensures forall k :: 0 <= k < |placed| ==> placed[k].source in s
    ensures forall i :: i in s ==> exists k :: 0 <= k < |placed| && placed[k].source == i
  {
    if placed == [] then {} else Sources(placed[..|placed| - 1]) + {placed[|placed| - 1].source}
  }

  /** What the synthesiser keeps: every placed field comes from a distinct, in-range text box;
      the used boxes are exactly the sources of the placed fields. */
  predicate Consistent(positions: seq<TextPosition>, st: Synthesis)
  {
    (forall k :: 0 <= k < |st.placed| ==> st.placed[k].source < |positions|) &&
    (forall k, l :: 0 <= k < l < |st.placed| ==> st.placed[k].source != st.placed[l].source) &&
    st.used == Sources(st.placed)
  }

  /** Where each placed field sits relative to the box it was anchored to. */
  predicate PlacedBeside(pageWidth: real, positions: seq<TextPosition>, p: Placed)
    requires p.source < |positions|
  {
    var text := positions[p.source].rect;
    match p.field.kind
    case Checkbox =>
      p.field.rect.x1 == text.x0 - 1.0 && p.field.rect.Width() == 11.0 &&
      p.field.rect.y0 == text.y0 && p.field.rect.y1 == text.y1
    case TextBox =>
      p.field.rect.x0 == text.x1 + 2.0 && 20.0 <= p.field.rect.Width() <= 200.0 &&
      p.field.rect.y0 == text.y0 && p.field.rect.y1 == text.y1
  }

  predicate AllBeside(pageWidth: real, positions: seq<TextPosition>, placed: seq<Placed>)
    requires forall k :: 0 <= k < |placed| ==> placed[k].source < |positions|
  {
    forall k :: 0 <= k < |placed| ==> PlacedBeside(pageWidth, positions, placed[k])
  }

  /** The field made for an in-range box is always placed, and sits beside that box. */
  lemma NewFieldBeside(pageWidth: real, positions: seq<TextPosition>, c: Candidate, idx: nat)
    requires idx < |positions|
    ensures NewField(pageWidth, positions, c, idx).Some?
    ensures PlacedBeside(pageWidth, positions, Placed(NewField(pageWidth, positions, c, idx).value, idx))
  {
    TextFieldShape(pageWidth, positions, idx);
  }

  /** Appending a field beside a fresh, in-range box keeps the bookkeeping consistent. */
  lemma AppendKeepsConsistent(pageWidth: real, positions: seq<TextPosition>, st: Synthesis, p: Placed)
    requires p.source < |positions| && p.source !in st.used && PlacedBeside(pageWidth, positions, p)
    requires Consistent(positions, st) && AllBeside(pageWidth, positions, st.placed)
    ensures var st' := Synthesis(st.placed + [p], st.used + {p.source});
      Consistent(positions, st') && AllBeside(pageWidth, positions, st'.placed)
  {
    var placed := st.placed + [p];
    assert placed[..|st.placed|] == st.placed;
    assert Sources(placed) == Sources(st.placed) + {p.source};
  }

  /** Anchoring a candidate at an unused, in-range box adds exactly one field, beside that box. */
  lemma PlaceKeepsConsistent(pageWidth: real, positions: seq<TextPosition>, st: Synthesis, c: Candidate, m: Option<nat>)
    requires m.Some? ==> m.value < |positions| && m.value !in st.used
    requires Consistent(positions, st) && AllBeside(pageWidth, positions, st.placed)
    ensures var st' := Place(pageWidth, positions, st, c, m);
      Consistent(positions, st') && AllBeside(pageWidth, positions, st'.placed) &&
      |st'.placed| == |st.placed| + (if m.Some? then 1 else 0)
  {
    if m.Some? {
      var idx := m.value;
      NewFieldBeside(pageWidth, positions, c, idx);
      var p := Placed(NewField(pageWidth, positions, c, idx).value, idx);
      AppendKeepsConsistent(pageWidth, positions, st, p);
      assert Place(pageWidth, positions, st, c, m) == Synthesis(st.placed + [p], st.used + {idx});
    }
  }

  lemma StepKeepsConsistent(pageWidth: real, positions: seq<TextPosition>, st: Synthesis, c: Candidate)
    requires Consistent(positions, st) && AllBeside(pageWidth, positions, st.placed)
    ensures var st' := Step(pageWidth, positions, st, c);
      Consistent(positions, st') && AllBeside(pageWidth, positions, st'.placed) &&
      |st.placed| <= |st'.placed| <= |st.placed| + 1
  {
    PlaceKeepsConsistent(pageWidth, positions, st, c, MatchOf(c.labelText, positions, st.used));
  }

  /** Over a whole page: no two fields come from the same text box, the used boxes are exactly the
      anchors of the placed fields, every field sits beside its anchor as placed, and there is at
      most one field per candidate. */
  lemma {:induction false} SynthesisInvariant(pageWidth: real, positions: seq<TextPosition>, cands: seq<Candidate>)
    ensures var st := Synthesize(pageWidth, positions, cands);
      Consistent(positions, st) && AllBeside(pageWidth, positions, st.placed) &&
      |st.placed| <= |cands|
  {
    if cands != [] {
      SynthesisInvariant(pageWidth, positions, cands[..|cands| - 1]);
      StepKeepsConsistent(pageWidth, positions, Synthesize(pageWidth, positions, cands[..|cands| - 1]), cands[|cands| - 1]);
    }
  }

  /** A candidate that finds a box always yields a field: text fields are never dropped by the
      width test. */
  lemma MatchedCandidateIsPlaced(pageWidth: real, positions: seq<TextPosition>, st: Synthesis, c: Candidate)
    requires MatchOf(c.labelText, positions, st.used).Some?
    ensures var st' := Step(pageWidth, positions, st, c);
      |st'.placed| == |st.placed| + 1 && st'.placed[|st.placed|].field.kind == c.kind &&
      st'.placed[|st.placed|].source == MatchOf(c.labelText, positions, st.used).value
  {
    TextFieldShape(pageWidth, positions, MatchOf(c.labelText, positions, st.used).value);
  }
}
