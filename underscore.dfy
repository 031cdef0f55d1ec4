/**
 * The underscore-run strategy of the native-text path: the hits of a search for "___"
 * are ordered top to bottom, left to right, neighbouring hits on the same line are
 * merged greedily into the last merged rectangle, and each merged run becomes a text
 * field 2 units taller than the run.
 */
module Underscore {
  import opened Geometry

  // ---------------------------------------------------------------------------
  // Ordering by (y0, x0).

  /** `a` sorts no later than `b`: by top edge, then by left edge. */
  predicate KeyLe(a: Rect, b: Rect)
  {
    a.y0 < b.y0 || (a.y0 == b.y0 && a.x0 <= b.x0)
  }

  predicate SortedByPosition(rs: seq<Rect>)
  {
    forall i, j :: 0 <= i < j < |rs| ==> KeyLe(rs[i], rs[j])
  }

  /** Inserts `r` into a sorted list after every element whose key is not greater than its own,
      so that equal keys keep their arrival order. */
  function Insert(sorted: seq<Rect>, r: Rect): (out: seq<Rect>)
    ensures multiset(out) == multiset(sorted) + multiset{r}
    ensures |out| == |sorted| + 1
  {
    if sorted == [] then [r]
    else if KeyLe(sorted[|sorted| - 1], r) then sorted + [r]
    else
      var init := sorted[..|sorted| - 1];
      assert sorted == init + [sorted[|sorted| - 1]];
      Insert(init, r) + [sorted[|sorted| - 1]]
  }

  /** Python's stable sort by the key (y0, x0), as insertion of each hit in arrival order. */
  function SortByPosition(rs: seq<Rect>): seq<Rect>
  {
    if rs == [] then [] else Insert(SortByPosition(rs[..|rs| - 1]), rs[|rs| - 1])
  }

  lemma {:induction false} InsertSorted(sorted: seq<Rect>, r: Rect)
    requires SortedByPosition(sorted)
    ensures SortedByPosition(Insert(sorted, r))
  {
    if sorted != [] && !KeyLe(sorted[|sorted| - 1], r) {
      var init := sorted[..|sorted| - 1];
      InsertSorted(init, r);
      var ins := Insert(init, r);
      var last := sorted[|sorted| - 1];
      // every element of Insert(init, r) is r or an element of init, hence sorts no later than last
      forall k | 0 <= k < |ins| ensures KeyLe(ins[k], last) {
        assert ins[k] in multiset(ins);
        assert ins[k] == r || ins[k] in multiset(init);
        if ins[k] != r {
          var j :| 0 <= j < |init| && init[j] == ins[k];
          assert KeyLe(sorted[j], sorted[|sorted| - 1]);
        }
      }
    }
  }

  /** The order is a sorted permutation of the hits. */
  lemma {:induction false} SortByPositionSpec(rs: seq<Rect>)
    ensures SortedByPosition(SortByPosition(rs))
    ensures multiset(SortByPosition(rs)) == multiset(rs)
  {
    if rs != [] {
      SortByPositionSpec(rs[..|rs| - 1]);
      InsertSorted(SortByPosition(rs[..|rs| - 1]), rs[|rs| - 1]);
      assert rs == rs[..|rs| - 1] + [rs[|rs| - 1]];
    }
  }

  /** `a` and `b` have the same sort key (y0, x0). */
  predicate SameKey(a: Rect, b: Rect)
  {
    a.y0 == b.y0 && a.x0 == b.x0
  }

  /** The elements of `rs` whose key equals that of `a`, in their order in `rs`. */
  function Ties(rs: seq<Rect>, a: Rect): seq<Rect>
  {
    if rs == [] then []
    else Ties(rs[..|rs| - 1], a) + (if SameKey(rs[|rs| - 1], a) then [rs[|rs| - 1]] else [])
  }

  /** Inserting `r` puts it after every element of its own key already in the list. */
  lemma {:induction false} InsertKeepsTies(sorted: seq<Rect>, r: Rect, a: Rect)
    ensures Ties(Insert(sorted, r), a) == Ties(sorted, a) + (if SameKey(r, a) then [r] else [])
  {
    var out := Insert(sorted, r);
    if sorted == [] {
      assert out[..0] == [];
    } else if KeyLe(sorted[|sorted| - 1], r) {
      assert out[..|out| - 1] == sorted;
    } else {
      var init := sorted[..|sorted| - 1];
      var last := sorted[|sorted| - 1];
      var ins := Insert(init, r);
      InsertKeepsTies(init, r, a);
      assert out[..|out| - 1] == ins;
      // `last` sorts strictly after `r`, so the two cannot share the key of `a`
      assert !(SameKey(r, a) && SameKey(last, a));
    }
  }

  /** The sort is stable: hits with equal (y0, x0) keep their input order. */
  lemma {:induction false} SortByPositionStable(rs: seq<Rect>, a: Rect)
    ensures Ties(SortByPosition(rs), a) == Ties(rs, a)
  {
    if rs != [] {
      SortByPositionStable(rs[..|rs| - 1], a);
      InsertKeepsTies(SortByPosition(rs[..|rs| - 1]), rs[|rs| - 1], a);
    }
  }

  // ---------------------------------------------------------------------------
  // Greedy merging.

  /** A hit joins the last merged run when their tops differ by less than 3 and it starts less
      than 5 units after the run ends. */
  predicate Joins(run: Rect, r: Rect)
  {
    Abs(r.y0 - run.y0) < 3.0 && r.x0 < run.x1 + 5.0
  }

  /** Greedy merge of hits, in the order given, into runs. */
  function MergeRuns(rs: seq<Rect>): (merged: seq<Rect>)
    ensures |merged| <= |rs|
    ensures rs != [] ==> merged != []
  {
    if rs == [] then []
    else
      var m := MergeRuns(rs[..|rs| - 1]);
      var r := rs[|rs| - 1];
      if m != [] && Joins(m[|m| - 1], r) then m[..|m| - 1] + [Hull(m[|m| - 1], r)] else m + [r]
  }

  lemma MergeRunsStep(rs: seq<Rect>, i: nat)
    requires i < |rs|
    ensures var m := MergeRuns(rs[..i]);
      MergeRuns(rs[..i + 1]) ==
        if m != [] && Joins(m[|m| - 1], rs[i]) then m[..|m| - 1] + [Hull(m[|m| - 1], rs[i])] else m + [rs[i]]
  {
    assert rs[..i + 1][..i] == rs[..i];
  }

  /** Each merged run, extended 2 units downwards, as a text field. */
  function RunFields(merged: seq<Rect>): (fields: seq<Field>)
    ensures |fields| == |merged|
    ensures forall k :: 0 <= k < |merged| ==>
      fields[k] == Field(TextBox, Rect(merged[k].x0, merged[k].y0, merged[k].x1, merged[k].y1 + 2.0))
  {
    seq(|merged|, k requires 0 <= k < |merged| =>
      Field(TextBox, Rect(merged[k].x0, merged[k].y0, merged[k].x1, merged[k].y1 + 2.0)))
  }

  lemma RunFieldsStep(merged: seq<Rect>, k: nat)
    requires k < |merged|
    ensures RunFields(merged[..k + 1]) == RunFields(merged[..k]) +
      [Field(TextBox, Rect(merged[k].x0, merged[k].y0, merged[k].x1, merged[k].y1 + 2.0))]
  {
  }

  function UnderscoreSpec(instances: seq<Rect>): seq<Field>
  {
    RunFields(MergeRuns(SortByPosition(instances)))
  }

  /** Merges sorted hits greedily: a hit joins the last run or starts a new one. */
  method MergeHits(ordered: seq<Rect>) returns (merged: seq<Rect>)
    ensures merged == MergeRuns(ordered)
  {
    merged := [];
    for i := 0 to |ordered|
      invariant merged == MergeRuns(ordered[..i])
    {
      MergeRunsStep(ordered, i);
      var inst := ordered[i];
      if |merged| == 0 {
        merged := [inst];
      } else {
        var last := merged[|merged| - 1];
        if Abs(inst.y0 - last.y0) < 3.0 && inst.x0 < last.x1 + 5.0 {
          merged := merged[..|merged| - 1] + [Hull(last, inst)];
        } else {
          merged := merged + [inst];
        }
      }
    }
    assert ordered[..|ordered|] == ordered;
  }

  /** Turns each run into a text field 2 units taller. */
  method PadRuns(merged: seq<Rect>) returns (fields: seq<Field>)
    ensures fields == RunFields(merged)
  {
    fields := [];
    for k := 0 to |merged|
      invariant fields == RunFields(merged[..k])
    {
      RunFieldsStep(merged, k);
      var m := merged[k];
      fields := fields + [Field(TextBox, Rect(m.x0, m.y0, m.x1, m.y1 + 2.0))];
    }
    assert merged[..|merged|] == merged;
  }

  method FindUnderscoreFields(instances: seq<Rect>) returns (fields: seq<Field>)
    ensures fields == UnderscoreSpec(instances)
  {
    fields := [];
    if |instances| == 0 {
      return;
    }
    var ordered := SortByPosition(instances);
    var merged := MergeHits(ordered);
    fields := PadRuns(merged);
  }

  // ---------------------------------------------------------------------------
  // Properties.

  /** Every rectangle of `rs` lies inside some rectangle of `out`. */
  predicate Covers(out: seq<Rect>, rs: seq<Rect>)
  {
    forall i :: 0 <= i < |rs| ==> CoveredBy(out, rs[i])
  }

  /** `r` lies inside some rectangle of `out`. */
  predicate CoveredBy(out: seq<Rect>, r: Rect)
  {
    exists k :: 0 <= k < |out| && out[k].Contains(r)
  }

  /** Every hit lies inside some merged run. */
  lemma {:induction false} MergeRunsCovers(rs: seq<Rect>)
    ensures Covers(MergeRuns(rs), rs)
  {
    if rs != [] {
      var init := rs[..|rs| - 1];
      MergeRunsCovers(init);
      var m := MergeRuns(init);
      assert Covers(m, init);
      var r := rs[|rs| - 1];
      var out := MergeRuns(rs);
      if m != [] && Joins(m[|m| - 1], r) {
        var h := Hull(m[|m| - 1], r);
        assert out == m[..|m| - 1] + [h];
        forall i | 0 <= i < |rs| ensures CoveredBy(out, rs[i]) {
          if i == |rs| - 1 {
            assert out[|out| - 1] == h;
            assert out[|out| - 1].Contains(rs[i]);
          } else {
            assert rs[i] == init[i];
            var k :| 0 <= k < |m| && m[k].Contains(init[i]);
            if k == |m| - 1 {
              assert out[k] == h;
              assert h.Contains(m[k]);
              assert out[k].Contains(rs[i]);
            } else {
              assert out[k] == m[k];
              assert out[k].Contains(rs[i]);
            }
          }
        }
      } else {
        assert out == m + [r];
        forall i | 0 <= i < |rs| ensures CoveredBy(out, rs[i]) {
          if i == |rs| - 1 {
            assert out[|out| - 1] == r;
            assert out[|out| - 1].Contains(rs[i]);
          } else {
            assert rs[i] == init[i];
            var k :| 0 <= k < |m| && m[k].Contains(init[i]);
            assert out[k] == m[k];
            assert out[k].Contains(rs[i]);
          }
        }
      }
    }
  }

  /** No hits, no fields; otherwise at least one and never more fields than hits. */
  lemma UnderscoreCount(instances: seq<Rect>)
    ensures |UnderscoreSpec(instances)| <= |instances|
    ensures UnderscoreSpec(instances) == [] <==> instances == []
  {
    SortByPositionSpec(instances);
    var s := SortByPosition(instances);
    assert |s| == |multiset(s)| == |multiset(instances)| == |instances|;
  }

  /** Coverage does not depend on the order of the covered rectangles. */
  lemma CoversReordered(out: seq<Rect>, rs: seq<Rect>, ts: seq<Rect>)
    requires Covers(out, rs) && multiset(rs) == multiset(ts)
    ensures Covers(out, ts)
  {
    forall i | 0 <= i < |ts| ensures CoveredBy(out, ts[i]) {
      assert ts[i] in multiset(rs);
      var j :| 0 <= j < |rs| && rs[j] == ts[i];
      assert CoveredBy(out, rs[j]);
    }
  }

  /** Every hit lies inside one of the fields. */
  lemma UnderscoreCovers(instances: seq<Rect>)
    ensures forall i :: 0 <= i < |instances| ==>
      exists k :: 0 <= k < |UnderscoreSpec(instances)| && UnderscoreSpec(instances)[k].rect.Contains(instances[i])
  {
    SortByPositionSpec(instances);
    var s := SortByPosition(instances);
    MergeRunsCovers(s);
    var merged := MergeRuns(s);
    CoversReordered(merged, s, instances);
    var fields := UnderscoreSpec(instances);
    forall i | 0 <= i < |instances|
      ensures exists k :: 0 <= k < |fields| && fields[k].rect.Contains(instances[i])
    {
      assert CoveredBy(merged, instances[i]);
      var k :| 0 <= k < |merged| && merged[k].Contains(instances[i]);
      assert fields[k].rect.Contains(merged[k]);
    }
  }

  /** A hit extends the last run exactly when it is on the same line (tops within 3) and starts
      less than 5 units after the run's right edge. */
  lemma JoinIff(rs: seq<Rect>, r: Rect)
    requires rs != []
    ensures var m := MergeRuns(rs);
      |MergeRuns(rs + [r])| == |m| <==> Joins(m[|m| - 1], r)
  {
    assert (rs + [r])[..|rs|] == rs;
  }

  /** Two hits on one line, 6 units apart, stay two fields; 4 units apart, they become one
      field spanning both, 2 units taller. */
  lemma GapOfSixDoesNotMerge()
    ensures UnderscoreSpec([Rect(10.0, 100.0, 100.0, 110.0), Rect(106.0, 100.0, 200.0, 110.0)]) ==
      [Field(TextBox, Rect(10.0, 100.0, 100.0, 112.0)), Field(TextBox, Rect(106.0, 100.0, 200.0, 112.0))]
    ensures UnderscoreSpec([Rect(10.0, 100.0, 100.0, 110.0), Rect(104.0, 101.0, 200.0, 111.0)]) ==
      [Field(TextBox, Rect(10.0, 100.0, 200.0, 113.0))]
  {
    var a := Rect(10.0, 100.0, 100.0, 110.0);
    var b := Rect(106.0, 100.0, 200.0, 110.0);
    var c := Rect(104.0, 101.0, 200.0, 111.0);
    assert [a, b][..1] == [a];
    assert [a, c][..1] == [a];
    assert SortByPosition([a]) == [a];
    assert SortByPosition([a, b]) == [a, b];
    assert SortByPosition([a, c]) == [a, c];
    assert MergeRuns([a]) == [a];
    assert MergeRuns([a, b]) == [a, b];
    assert MergeRuns([a, c]) == [Rect(10.0, 100.0, 200.0, 111.0)];
  }
}
