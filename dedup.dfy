/**
 * The final pass of detection: fields with no area are dropped, and a field is dropped
 * when a field of the same kind kept before it overlaps it. The first of overlapping
 * same-kind fields wins.
 */
module Dedup {
  import opened Geometry

  /** `f` overlaps some field of the same kind in `kept`. */
  predicate Clashes(f: Field, kept: seq<Field>)
  {
    exists k :: 0 <= k < |kept| && kept[k].kind == f.kind && Intersects(f.rect, kept[k].rect)
  }

  /** The fields that survive, in their original order. */
  function DedupSpec(fields: seq<Field>): seq<Field>
  {
    if fields == [] then []
    else
      var kept := DedupSpec(fields[..|fields| - 1]);
      var f := fields[|fields| - 1];
      if f.rect.IsDegenerate() || Clashes(f, kept) then kept else kept + [f]
  }

  lemma DedupStep(fields: seq<Field>, i: nat)
    requires i < |fields|
    ensures var kept := DedupSpec(fields[..i]);
      DedupSpec(fields[..i + 1]) == if fields[i].rect.IsDegenerate() || Clashes(fields[i], kept) then kept else kept + [fields[i]]
  {
    assert fields[..i + 1][..i] == fields[..i];
  }

  /** Whether a field of the same kind already kept overlaps `f`. */
  method IsDuplicate(f: Field, unique: seq<Field>) returns (dup: bool)
    ensures dup <==> Clashes(f, unique)
  {
    for k := 0 to |unique|
      invariant forall j :: 0 <= j < k ==> !(unique[j].kind == f.kind && Intersects(f.rect, unique[j].rect))
    {
      if f.kind == unique[k].kind && Intersects(f.rect, unique[k].rect) {
        return true;
      }
    }
    return false;
  }

  method DedupFields(fields: seq<Field>) returns (unique: seq<Field>)
    ensures unique == DedupSpec(fields)
  {
    unique := [];
    for i := 0 to |fields|
      invariant unique == DedupSpec(fields[..i])
    {
      DedupStep(fields, i);
      var f := fields[i];
      if f.rect.Width() <= 0.0 || f.rect.Height() <= 0.0 {
        continue;
      }
      var dup := IsDuplicate(f, unique);
      if !dup {
        unique := unique + [f];
      }
    }
    assert fields[..|fields|] == fields;
  }

  // ---------------------------------------------------------------------------
  // Properties.

  /** No field without area, and no two fields of one kind overlap. */
  predicate Clean(fields: seq<Field>)
  {
    (forall k :: 0 <= k < |fields| ==> !fields[k].rect.IsDegenerate()) &&
    (forall i, j :: 0 <= i < j < |fields| && fields[i].kind == fields[j].kind ==>
      !Intersects(fields[i].rect, fields[j].rect))
  }

  /** The kept fields are clean. */
  lemma {:induction false} DedupIsClean(fields: seq<Field>)
    ensures Clean(DedupSpec(fields))
  {
    if fields != [] {
      DedupIsClean(fields[..|fields| - 1]);
    }
  }

  /** The indices of the kept fields. */
  function KeptIndices(fields: seq<Field>): seq<nat>
  {
    if fields == [] then []
    else
      var kept := DedupSpec(fields[..|fields| - 1]);
      var f := fields[|fields| - 1];
      var idx := KeptIndices(fields[..|fields| - 1]);
      if f.rect.IsDegenerate() || Clashes(f, kept) then idx else idx + [|fields| - 1]
  }

  /** The kept fields are a subsequence of the input: they are the input's fields at strictly
      increasing indices. */
  lemma {:induction false} DedupIsSubsequence(fields: seq<Field>)
    ensures var out := DedupSpec(fields);
      var idx := KeptIndices(fields);
      |idx| == |out| &&
      (forall k :: 0 <= k < |idx| ==> idx[k] < |fields| && out[k] == fields[idx[k]]) &&
      (forall k, l :: 0 <= k < l < |idx| ==> idx[k] < idx[l])
  {
    if fields != [] {
      var init := fields[..|fields| - 1];
      DedupIsSubsequence(init);
      forall k | 0 <= k < |KeptIndices(init)| ensures fields[KeptIndices(init)[k]] == init[KeptIndices(init)[k]] {
      }
    }
  }

  /** The kept fields of a prefix are a prefix of the kept fields. */
  lemma {:induction false} DedupPrefix(fields: seq<Field>, n: nat)
    requires n <= |fields|
    ensures var out := DedupSpec(fields);
      var pre := DedupSpec(fields[..n]);
      |pre| <= |out| && out[..|pre|] == pre
  {
    if n < |fields| {
      DedupPrefix(fields[..|fields| - 1], n);
      assert fields[..|fields| - 1][..n] == fields[..n];
    } else {
      assert fields[..n] == fields;
    }
  }

  /** Nothing keepable is dropped, and the first of two clashing fields wins: every input field
      with area is kept or overlaps a kept field of its kind; it is dropped only for a field kept
      before it, and otherwise it is the next field kept. */
  lemma {:induction false} DedupIsMaximal(fields: seq<Field>, i: nat)
    requires i < |fields| && !fields[i].rect.IsDegenerate()
    ensures var out := DedupSpec(fields);
      fields[i] in out || Clashes(fields[i], out)
    ensures var pre := DedupSpec(fields[..i]);
      var out := DedupSpec(fields);
      (fields[i] in out || Clashes(fields[i], pre)) &&
      (!Clashes(fields[i], pre) ==> |pre| < |out| && out[|pre|] == fields[i])
  {
    var pre := DedupSpec(fields[..i]);
    var out := DedupSpec(fields);
    DedupStep(fields, i);
    DedupPrefix(fields, i + 1);
    var pre1 := DedupSpec(fields[..i + 1]);
    if Clashes(fields[i], pre) {
      var k :| 0 <= k < |pre| && pre[k].kind == fields[i].kind && Intersects(fields[i].rect, pre[k].rect);
      assert pre1 == pre;
      assert out[k] == pre[k];
    } else {
      assert pre1[|pre1| - 1] == fields[i];
      assert out[|pre1| - 1] == fields[i];
    }
  }

  /** A clean list passes through unchanged. */
  lemma {:induction false} DedupKeepsClean(fields: seq<Field>)
    requires Clean(fields)
    ensures DedupSpec(fields) == fields
  {
    if fields != [] {
      var init := fields[..|fields| - 1];
      var f := fields[|fields| - 1];
      assert Clean(init);
      DedupKeepsClean(init);
      forall k | 0 <= k < |init| && init[k].kind == f.kind ensures !Intersects(f.rect, init[k].rect) {
        assert fields[k] == init[k];
      }
      assert fields == init + [f];
    }
  }

  /** Deduplicating twice is deduplicating once. */
  lemma DedupIdempotent(fields: seq<Field>)
    ensures DedupSpec(DedupSpec(fields)) == DedupSpec(fields)
  {
    DedupIsClean(fields);
    DedupKeepsClean(DedupSpec(fields));
  }

  /** Of two fields with area, the second is kept unless it is of the first's kind and
      overlaps it. */
  lemma DedupPair(a: Field, b: Field)
    requires !a.rect.IsDegenerate() && !b.rect.IsDegenerate()
    ensures DedupSpec([a, b]) == if a.kind == b.kind && Intersects(b.rect, a.rect) then [a] else [a, b]
  {
    assert [a, b][..1] == [a];
    assert DedupSpec([a]) == [a];
    assert Clashes(b, [a]) <==> a.kind == b.kind && Intersects(b.rect, a.rect) by {
      assert [a][0] == a;
    }
  }

  /** A chain of three same-kind fields, the middle one overlapping both neighbours, which do not
      overlap each other: the first wins over the middle one, so the third is kept too. */
  lemma DedupChain(a: Field, b: Field, c: Field)
    requires !a.rect.IsDegenerate() && !b.rect.IsDegenerate() && !c.rect.IsDegenerate()
    requires a.kind == b.kind == c.kind
    requires Intersects(b.rect, a.rect) && Intersects(c.rect, b.rect) && !Intersects(c.rect, a.rect)
    ensures DedupSpec([a, b, c]) == [a, c]
  {
    var fields := [a, b, c];
    DedupPair(a, b);
    assert fields[..2] == [a, b];
    var kept := DedupSpec(fields[..2]);
    assert !Clashes(c, kept) by {
      assert kept[0] == a;
    }
    DedupStep(fields, 2);
    assert fields[..3] == fields;
  }
}
