/** The single-row half of `emu/graphics/region.cc`: sets of pixels on one row, held as ascending
    half-open ranges, and the sweeps that combine two of them. */
module Scanlines {

  import opened Geometry
  import opened Options

  /** The pixels `x` with `start <= x < end`. */
  datatype Range = Range(start: int, end: int)

  type Line = seq<Range>

  ghost predicate InRange(r: Range, x: int) {
    r.start <= x < r.end
  }

  /** The meaning of a line: the set of pixels it covers. */
  ghost predicate Covers(line: Line, x: int) {
    exists i :: 0 <= i < |line| && InRange(line[i], x)
  }

  /** 16-bit ranges in order, with at least `gap` pixels between neighbours. */
  ghost predicate Apart(line: Line, gap: int) {
    && (forall i :: 0 <= i < |line| ==> IsInt16(line[i].start) && line[i].start <= line[i].end && IsInt16(line[i].end))
    && (forall i, j :: 0 <= i < j < |line| ==> line[i].end + gap <= line[j].start)
  }

  ghost predicate NoEmptyRange(line: Line) {
    forall i :: 0 <= i < |line| ==> line[i].start < line[i].end
  }

  /** What every sweep demands: ranges in order, overlapping nowhere. Empty and touching ranges are allowed. */
  ghost predicate Sorted(line: Line) {
    Apart(line, 0)
  }

  /** The normal form: no range is empty and neighbours do not touch. */
  ghost predicate Strict(line: Line) {
    NoEmptyRange(line) && Apart(line, 1)
  }


  lemma CoversAppend(line: Line, r: Range, x: int)
    ensures Covers(line + [r], x) <==> Covers(line, x) || InRange(r, x)
  {
    var longer := line + [r];
    if Covers(line, x) {
      var i :| 0 <= i < |line| && InRange(line[i], x);
      assert longer[i] == line[i];
    }
    if InRange(r, x) {
      assert longer[|line|] == r;
    }
  }

  lemma CoversConcat(line: Line, more: Line, x: int)
    ensures Covers(line + more, x) <==> Covers(line, x) || Covers(more, x)
  {
    var both := line + more;
    if Covers(line, x) {
      var i :| 0 <= i < |line| && InRange(line[i], x);
      assert both[i] == line[i];
    }
    if Covers(more, x) {
      var i :| 0 <= i < |more| && InRange(more[i], x);
      assert both[|line| + i] == more[i];
    }
  }

  lemma CoversTake(line: Line, i: nat, x: int)
    requires i < |line|
    ensures Covers(line[..i + 1], x) <==> Covers(line[..i], x) || InRange(line[i], x)
  {
    assert line[..i + 1] == line[..i] + [line[i]];
    CoversAppend(line[..i], line[i], x);
  }

  /** No range covers a pixel that an earlier one covers. */
  lemma CoveredOnce(line: Line, i: nat, x: int)
    requires Sorted(line) && i < |line|
    ensures !(InRange(line[i], x) && Covers(line[..i], x))
  {
  }

  lemma CoversDrop(line: Line, i: nat, x: int)
    requires i < |line|
    ensures Covers(line[i..], x) <==> InRange(line[i], x) || Covers(line[i + 1..], x)
  {
    var rest := line[i..];
    if Covers(line[i + 1..], x) {
      var k :| 0 <= k < |line[i + 1..]| && InRange(line[i + 1..][k], x);
      assert rest[k + 1] == line[i + 1..][k];
    }
    if InRange(line[i], x) {
      assert rest[0] == line[i];
    }
    if Covers(rest, x) {
      var k :| 0 <= k < |rest| && InRange(rest[k], x);
      assert k > 0 ==> line[i + 1..][k - 1] == rest[k];
    }
  }

  /** Merges two rows into one whose ranges never touch. */
  method Union(d1: Line, d2: Line) returns (output: Line)
    requires Sorted(d1) && Sorted(d2)
    ensures Sorted(output)
    ensures NoEmptyRange(d1) && NoEmptyRange(d2) ==> Strict(output)
    ensures forall x :: Covers(output, x) <==> Covers(d1, x) || Covers(d2, x)
    ensures |output| <= |d1| + |d2|
  {
    hide UnionState;
    var r1: nat, r2: nat := 0, 0;
    var unionRange := Range(0, 0);
    var hasRange := false;
    output := [];
    while r1 < |d1| || r2 < |d2|
      invariant r1 <= |d1| && r2 <= |d2|
      invariant hasRange <==> r1 + r2 > 0
      invariant !hasRange ==> output == []
      invariant hasRange ==> UnionState(d1, r1, d2, r2, output, unionRange) && |output| < r1 + r2
      decreases |d1| + |d2| - r1 - r2
    {
      var nextRange;
      ghost var o1, o2 := r1, r2;
      if r2 == |d2| || (r1 < |d1| && d1[r1].start < d2[r2].start) {
        nextRange := d1[r1];
        r1 := r1 + 1;
      } else {
        nextRange := d2[r2];
        r2 := r2 + 1;
      }

      if !hasRange {
        UnionBegin(d1, r1, d2, r2, nextRange);
        unionRange, hasRange := nextRange, true;
      } else {
        UnionSwap(d1, o1, d2, o2, output, unionRange);
        if o1 < r1 {
          UnionStep(d1, o1, d2, o2, output, unionRange);
        } else {
          UnionStep(d2, o2, d1, o1, output, unionRange);
        }
        if nextRange.start <= unionRange.end {
          unionRange := unionRange.(end := Max(nextRange.end, unionRange.end));
        } else {
          output := output + [unionRange];
          unionRange := nextRange;
        }
        UnionSwap(d2, r2, d1, r1, output, unionRange);
      }
    }
    if hasRange {
      UnionEnd(d1, d2, output, unionRange);
      output := output + [unionRange];
    }
  }

  /** The first `r1` and `r2` ranges have been merged into `output` and the still growing `last`. */
  ghost predicate UnionState(d1: Line, r1: nat, d2: Line, r2: nat, output: Line, last: Range) {
    && r1 <= |d1| && r2 <= |d2|
    && IsInt16(last.start) && last.start <= last.end && IsInt16(last.end)
    && (forall k :: r1 <= k < |d1| ==> last.start <= d1[k].start)
    && (forall k :: r2 <= k < |d2| ==> last.start <= d2[k].start)
    && Apart(output, 1)
    && (forall k :: 0 <= k < |output| ==> output[k].end < last.start)
    && (NoEmptyRange(d1) && NoEmptyRange(d2) ==> NoEmptyRange(output) && last.start < last.end)
    && (forall x :: Covers(output, x) || InRange(last, x) <==> Covers(d1[..r1], x) || Covers(d2[..r2], x))
  }

  lemma UnionSwap(d1: Line, r1: nat, d2: Line, r2: nat, output: Line, last: Range)
    ensures UnionState(d1, r1, d2, r2, output, last) <==> UnionState(d2, r2, d1, r1, output, last)
  {
  }

  lemma UnionBegin(d1: Line, r1: nat, d2: Line, r2: nat, first: Range)
    requires Sorted(d1) && Sorted(d2) && r1 <= |d1| && r2 <= |d2|
    requires (r1 == 1 && r2 == 0 && first == d1[0] && (d2 == [] || first.start <= d2[0].start))
          || (r1 == 0 && r2 == 1 && first == d2[0] && (d1 == [] || first.start <= d1[0].start))
    ensures UnionState(d1, r1, d2, r2, [], first)
  {
    assert if r1 == 1 then d1[..r1] == [first] && d2[..r2] == [] else d1[..r1] == [] && d2[..r2] == [first];
    forall x ensures Covers([first], x) <==> InRange(first, x) {
      assert [first][0] == first;
    }
  }

  lemma UnionStep(d1: Line, r1: nat, d2: Line, r2: nat, output: Line, last: Range)
    requires Sorted(d1) && Sorted(d2) && r1 < |d1|
    requires UnionState(d1, r1, d2, r2, output, last)
    requires r2 < |d2| ==> d1[r1].start <= d2[r2].start
    ensures var next := d1[r1];
            if next.start <= last.end then
              UnionState(d1, r1 + 1, d2, r2, output, last.(end := Max(next.end, last.end)))
            else
              UnionState(d1, r1 + 1, d2, r2, output + [last], next)
  {
    forall x { CoversTake(d1, r1, x); }
    forall x { CoversAppend(output, last, x); }
  }

  lemma UnionEnd(d1: Line, d2: Line, output: Line, last: Range)
    requires UnionState(d1, |d1|, d2, |d2|, output, last)
    ensures Apart(output + [last], 1)
    ensures NoEmptyRange(d1) && NoEmptyRange(d2) ==> NoEmptyRange(output + [last])
    ensures forall x :: Covers(output + [last], x) <==> Covers(d1, x) || Covers(d2, x)
  {
    assert d1[..|d1|] == d1 && d2[..|d2|] == d2;
    forall x { CoversAppend(output, last, x); }
  }

  /** Keeps the pixels that both rows cover. */
  method Intersect(d1: Line, d2: Line) returns (output: Line)
    requires Sorted(d1) && Sorted(d2)
    ensures Sorted(output)
    ensures Strict(d1) && Strict(d2) ==> Strict(output)
    ensures forall x :: Covers(output, x) <==> Covers(d1, x) && Covers(d2, x)
    ensures |output| <= |d1| + |d2|
  {
    hide IntersectState;
    var r1: nat, r2: nat := 0, 0;
    output := [];
    IntersectBegin(d1, d2);
    while r1 < |d1| && r2 < |d2|
      invariant r1 <= |d1| && r2 <= |d2|
      invariant IntersectState(d1, r1, d2, r2, output) && |output| <= r1 + r2
      decreases |d1| + |d2| - r1 - r2
    {
      var v1, v2 := d1[r1], d2[r2];
      IntersectStep(d1, r1, d2, r2, output);
      var intersect := Range(Max(v1.start, v2.start), Min(v1.end, v2.end));
      if intersect.start < intersect.end {
        output := output + [intersect];
      }
      if v1.end < v2.end {
        r1 := r1 + 1;
      } else {
        r2 := r2 + 1;
      }
    }
    IntersectEnd(d1, r1, d2, r2, output);
  }

  /** The pixels both rows cover are those already in `output` and those both remainders cover. */
  ghost predicate IntersectState(d1: Line, r1: nat, d2: Line, r2: nat, output: Line) {
    var gap := if Strict(d1) && Strict(d2) then 1 else 0;
    && r1 <= |d1| && r2 <= |d2|
    && NoEmptyRange(output) && Apart(output, gap)
    && (r1 < |d1| && r2 < |d2| ==>
          forall k :: 0 <= k < |output| ==> output[k].end + gap <= Max(d1[r1].start, d2[r2].start))
    && (forall x :: Covers(d1, x) && Covers(d2, x)
                    <==> Covers(output, x) || (Covers(d1[r1..], x) && Covers(d2[r2..], x)))
  }

  lemma IntersectBegin(d1: Line, d2: Line)
    ensures IntersectState(d1, 0, d2, 0, [])
  {
    assert d1[0..] == d1 && d2[0..] == d2;
  }

  lemma IntersectStep(d1: Line, r1: nat, d2: Line, r2: nat, output: Line)
    requires Sorted(d1) && Sorted(d2) && r1 < |d1| && r2 < |d2|
    requires IntersectState(d1, r1, d2, r2, output)
    ensures var v1, v2 := d1[r1], d2[r2];
            var both := Range(Max(v1.start, v2.start), Min(v1.end, v2.end));
            var output' := if both.start < both.end then output + [both] else output;
            if v1.end < v2.end then
              IntersectState(d1, r1 + 1, d2, r2, output')
            else
              IntersectState(d1, r1, d2, r2 + 1, output')
  {
    var v1, v2 := d1[r1], d2[r2];
    var both := Range(Max(v1.start, v2.start), Min(v1.end, v2.end));
    var output' := if both.start < both.end then output + [both] else output;
    var s1, s2 := if v1.end < v2.end then r1 + 1 else r1, if v1.end < v2.end then r2 else r2 + 1;
    forall x ensures Covers(d1, x) && Covers(d2, x)
                     <==> Covers(output', x) || (Covers(d1[s1..], x) && Covers(d2[s2..], x))
    {
      CoversDrop(d1, r1, x);
      CoversDrop(d2, r2, x);
      CoversAppend(output, both, x);
      TailBeyond(d1, r1, x);
      TailBeyond(d2, r2, x);
    }
    var gap := if Strict(d1) && Strict(d2) then 1 else 0;
    assert r1 + 1 < |d1| ==> d1[r1].end + gap <= d1[r1 + 1].start;
    assert r2 + 1 < |d2| ==> d2[r2].end + gap <= d2[r2 + 1].start;
    if both.start < both.end {
      ApartAppend(output, both, gap);
    }
    hide Covers, Apart, Strict, Sorted;
  }

  lemma ApartAppend(line: Line, r: Range, gap: int)
    requires Apart(line, gap) && IsInt16(r.start) && r.start <= r.end && IsInt16(r.end)
    requires forall k :: 0 <= k < |line| ==> line[k].end + gap <= r.start
    ensures Apart(line + [r], gap)
  {
  }

  /** No range after the `i`th covers a pixel before its end. */
  lemma TailBeyond(line: Line, i: nat, x: int)
    requires Sorted(line) && i < |line|
    ensures Covers(line[i + 1..], x) ==> line[i].end <= x
  {
  }

  lemma IntersectEnd(d1: Line, r1: nat, d2: Line, r2: nat, output: Line)
    requires IntersectState(d1, r1, d2, r2, output)
    requires r1 == |d1| || r2 == |d2|
    ensures Sorted(output)
    ensures Strict(d1) && Strict(d2) ==> Strict(output)
    ensures forall x :: Covers(output, x) <==> Covers(d1, x) && Covers(d2, x)
  {
  }

  /** Keeps the pixels of the first row that the second does not cover. */
  method Subtract(d1: Line, d2: Line) returns (result: Line)
    requires Sorted(d1) && Sorted(d2)
    ensures Sorted(result)
    ensures Strict(d1) && NoEmptyRange(d2) ==> Strict(result)
    ensures forall x :: Covers(result, x) <==> Covers(d1, x) && !Covers(d2, x)
    ensures |result| <= |d1| + |d2|
  {
    hide SubtractState;
    var r1: nat := 0;
    var overlap, r2 := LoadNext(d2, 0);
    result := [];
    SubtractBegin(d1, d2);
    while r1 < |d1|
      invariant 0 <= r1 <= |d1| && Loaded(d2, r2, overlap)
      invariant SubtractState(d1, r1, d2, Pending(d2, r2, overlap), result)
    {
      var a := d1[r1];
      ghost var j := Pending(d2, r2, overlap);
      NothingBefore(d1, r1, d2, j, result);
      var pieces;
      pieces, overlap, r2 := CutRange(a, d2, overlap, r2);
      SubtractStep(d1, r1, d2, j, Pending(d2, r2, overlap), result, pieces);
      result := result + pieces;
      r1 := r1 + 1;
    }
    SubtractEnd(d1, r1, d2, Pending(d2, r2, overlap), result);
  }

  /** What is left of the first `r1` ranges is in `result`, and the first `j` ranges of `d2` are done with. */
  ghost predicate SubtractState(d1: Line, r1: nat, d2: Line, j: nat, result: Line) {
    var gap := if Strict(d1) && NoEmptyRange(d2) then 1 else 0;
    && r1 <= |d1| && j <= |d2| && |result| <= r1 + j
    && (r1 < |d1| ==> forall k :: 0 <= k < j ==> d2[k].end <= d1[r1].start)
    && Apart(result, gap) && NoEmptyRange(result)
    && (forall k :: 0 <= k < |result| ==> r1 > 0 && result[k].end <= d1[r1 - 1].end)
    && (forall x :: Covers(result, x) <==> Covers(d1[..r1], x) && !Covers(d2, x))
  }

  lemma SubtractBegin(d1: Line, d2: Line)
    ensures SubtractState(d1, 0, d2, 0, [])
  {
  }

  lemma NothingBefore(d1: Line, r1: nat, d2: Line, j: nat, result: Line)
    requires SubtractState(d1, r1, d2, j, result) && r1 < |d1|
    ensures forall k :: 0 <= k < j ==> d2[k].end <= d1[r1].start
  {
  }

  lemma SubtractStep(d1: Line, r1: nat, d2: Line, j: nat, next: nat, result: Line, pieces: Line)
    requires Sorted(d1) && Sorted(d2) && SubtractState(d1, r1, d2, j, result) && r1 < |d1| && j <= next <= |d2|
    requires forall k :: 0 <= k < next ==> d2[k].end <= d1[r1].end
    requires NoEmptyRange(pieces) && Within(pieces, d1[r1].start, d1[r1].end) && Apart(pieces, Gap(d2))
    requires LeftOf(pieces, d2, d1[r1].start, d1[r1].end) && |pieces| <= 1 + next - j
    ensures SubtractState(d1, r1 + 1, d2, next, result + pieces)
  {
    forall x ensures Covers(result + pieces, x) <==> Covers(d1[..r1 + 1], x) && !Covers(d2, x) {
      CoversTake(d1, r1, x);
      CoversConcat(result, pieces, x);
    }
    hide Covers;
  }

  lemma SubtractEnd(d1: Line, r1: nat, d2: Line, j: nat, result: Line)
    requires SubtractState(d1, r1, d2, j, result) && r1 == |d1|
    ensures Sorted(result) && (Strict(d1) && NoEmptyRange(d2) ==> Strict(result)) && |result| <= |d1| + |d2|
    ensures forall x :: Covers(result, x) <==> Covers(d1, x) && !Covers(d2, x)
  {
    assert d1[..r1] == d1;
  }

  /** One round of `Subtract`: what is left of `a`, and how far into `d2` the round moved. */
  method CutRange(a: Range, d2: Line, overlap0: Option<Range>, r20: nat)
    returns (result: Line, overlap: Option<Range>, r2: nat)
    requires IsInt16(a.start) && a.start <= a.end && IsInt16(a.end) && Sorted(d2)
    requires Loaded(d2, r20, overlap0)
    requires forall k :: 0 <= k < Pending(d2, r20, overlap0) ==> d2[k].end <= a.start
    ensures Loaded(d2, r2, overlap)
    ensures forall k :: 0 <= k < Pending(d2, r2, overlap) ==> d2[k].end <= a.end
    ensures NoEmptyRange(result) && Within(result, a.start, a.end)
    ensures Apart(result, Gap(d2))
    ensures LeftOf(result, d2, a.start, a.end)
    ensures Pending(d2, r20, overlap0) <= Pending(d2, r2, overlap)
    ensures |result| <= 1 + Pending(d2, r2, overlap) - Pending(d2, r20, overlap0)
  {
    hide CutState;
    overlap, r2 := SkipEnded(a.start, d2, overlap0, r20);
    var currentStart := a.start;
    result := [];
    CutBegin(a, d2, Pending(d2, r2, overlap));

    while overlap.Some? && overlap.value.start < a.end
      invariant Loaded(d2, r2, overlap)
      invariant a.start <= currentStart <= a.end
      invariant CutState(a, d2, Pending(d2, r2, overlap), result, currentStart)
      invariant |result| <= Pending(d2, r2, overlap) - Pending(d2, r20, overlap0)
      decreases |d2| - Pending(d2, r2, overlap)
    {
      var b := overlap.value;
      assert b == d2[r2 - 1];
      CutStep(a, d2, r2 - 1, result, currentStart);
      if currentStart < b.start {
        result := result + [Range(currentStart, Min(b.start, a.end))];
      }
      currentStart := Max(currentStart, b.end);
      if currentStart >= a.end {
        break;
      }
      overlap, r2 := LoadNext(d2, r2);
    }

    CutEnd(a, d2, Pending(d2, r2, overlap), result, currentStart);
    if currentStart < a.end {
      result := result + [Range(currentStart, a.end)];
    }
  }

  /** Passes over the ranges of `d2` that end before `start`. */
  method SkipEnded(start: int, d2: Line, overlap0: Option<Range>, r20: nat)
    returns (overlap: Option<Range>, r2: nat)
    requires Loaded(d2, r20, overlap0)
    requires forall k :: 0 <= k < Pending(d2, r20, overlap0) ==> d2[k].end <= start
    ensures Loaded(d2, r2, overlap)
    ensures forall k :: 0 <= k < Pending(d2, r2, overlap) ==> d2[k].end <= start
    ensures overlap.Some? ==> start < overlap.value.end
    ensures Pending(d2, r20, overlap0) <= Pending(d2, r2, overlap)
  {
    overlap, r2 := overlap0, r20;
    while overlap.Some? && overlap.value.end <= start
      invariant Loaded(d2, r2, overlap)
      invariant forall k :: 0 <= k < Pending(d2, r2, overlap) ==> d2[k].end <= start
      invariant Pending(d2, r20, overlap0) <= Pending(d2, r2, overlap)
      decreases |d2| - Pending(d2, r2, overlap)
    {
      overlap, r2 := LoadNext(d2, r2);
    }
  }

  /** A pixel past the first `j` ranges and short of the next one is not covered. */
  lemma GapUncovered(d2: Line, j: nat, x: int)
    requires Sorted(d2) && j <= |d2|
    requires forall k :: 0 <= k < j ==> d2[k].end <= x
    requires j < |d2| ==> x < d2[j].start
    ensures !Covers(d2, x)
  {
  }

  /** `result` holds what is left of the pixels from `lo` up to `hi`. */
  ghost predicate LeftOf(result: Line, d2: Line, lo: int, hi: int) {
    forall x :: Covers(result, x) <==> lo <= x < hi && !Covers(d2, x)
  }

  /** Cutting leaves a pixel between neighbours, unless one of the cutting ranges is empty. */
  ghost function Gap(d2: Line): int {
    if NoEmptyRange(d2) then 1 else 0
  }

  /** `a` has been cut by the first `j` ranges of `d2`, up to `currentStart`. */
  ghost predicate CutState(a: Range, d2: Line, j: nat, result: Line, currentStart: int) {
    && j <= |d2|
    && IsInt16(a.start) && IsInt16(a.end)
    && a.start <= currentStart
    && (forall k :: 0 <= k < j ==> d2[k].end <= currentStart && d2[k].end <= a.end)
    && Laid(result, Gap(d2), a, currentStart)
    && LeftOf(result, d2, a.start, Min(currentStart, a.end))
  }

  lemma CutBegin(a: Range, d2: Line, j: nat)
    requires IsInt16(a.start) && a.start <= a.end && IsInt16(a.end) && j <= |d2|
    requires forall k :: 0 <= k < j ==> d2[k].end <= a.start
    ensures CutState(a, d2, j, [], a.start)
  {
  }

  lemma CutStep(a: Range, d2: Line, j: nat, before: Line, from: int)
    requires Sorted(d2) && j < |d2| && from <= a.end && d2[j].start < a.end
    requires CutState(a, d2, j, before, from)
    ensures var after := if from < d2[j].start then before + [Range(from, Min(d2[j].start, a.end))] else before;
            var to := Max(from, d2[j].end);
            CutState(a, d2, j, after, to) && (to < a.end ==> CutState(a, d2, j + 1, after, to))
  {
    CutStepPixels(a, d2, j, before, from);
    if from < d2[j].start {
      LaidAppend(before, Gap(d2), a, from, d2[j].start, Max(from, d2[j].end));
    }
    hide LeftOf, Gap;
  }

  /** The pieces of `a` cut so far, all of them short of `currentStart`. */
  ghost predicate Laid(result: Line, gap: int, a: Range, currentStart: int) {
    && NoEmptyRange(result) && Apart(result, gap)
    && (forall k :: 0 <= k < |result| ==> a.start <= result[k].start && result[k].end <= a.end)
    && (forall k :: 0 <= k < |result| ==> result[k].end + gap <= currentStart)
  }

  lemma LaidAppend(result: Line, gap: int, a: Range, from: int, to: int, next: int)
    requires Laid(result, gap, a, from) && a.start <= from < to <= a.end && to + gap <= next && 0 <= gap
    requires IsInt16(from) && IsInt16(to)
    ensures Laid(result + [Range(from, to)], gap, a, next)
  {
  }

  lemma CutStepPixels(a: Range, d2: Line, j: nat, before: Line, from: int)
    requires Sorted(d2) && j < |d2| && a.start <= from <= a.end && d2[j].start < a.end
    requires forall k :: 0 <= k < j ==> d2[k].end <= from
    requires LeftOf(before, d2, a.start, from)
    ensures var after := if from < d2[j].start then before + [Range(from, d2[j].start)] else before;
            LeftOf(after, d2, a.start, Min(Max(from, d2[j].end), a.end))
  {
    var after := if from < d2[j].start then before + [Range(from, d2[j].start)] else before;
    var to := Min(Max(from, d2[j].end), a.end);
    forall x ensures Covers(after, x) <==> a.start <= x < to && !Covers(d2, x) {
      CoversAppend(before, Range(from, d2[j].start), x);
      if from <= x < d2[j].start {
        GapUncovered(d2, j, x);
      } else if from <= x < to {
        assert InRange(d2[j], x);
      }
    }
  }

  lemma CutEnd(a: Range, d2: Line, j: nat, before: Line, from: int)
    requires Sorted(d2)
    requires CutState(a, d2, j, before, from)
    requires from < a.end && j < |d2| ==> a.end <= d2[j].start
    ensures var after := if from < a.end then before + [Range(from, a.end)] else before;
            && (forall k :: 0 <= k < j ==> d2[k].end <= a.end)
            && NoEmptyRange(after) && Within(after, a.start, a.end) && Apart(after, Gap(d2))
            && LeftOf(after, d2, a.start, a.end)
  {
    var after := if from < a.end then before + [Range(from, a.end)] else before;
    forall x ensures Covers(after, x) <==> a.start <= x < a.end && !Covers(d2, x) {
      CoversAppend(before, Range(from, a.end), x);
      if from <= x < a.end {
        GapUncovered(d2, j, x);
      }
    }
  }

  ghost predicate Within(line: Line, lo: int, hi: int) {
    forall k :: 0 <= k < |line| ==> lo <= line[k].start <= line[k].end <= hi
  }

  /** The next range of `d2`, or nothing at its end. */
  method LoadNext(d2: Line, r2: nat) returns (overlap: Option<Range>, next: nat)
    requires r2 <= |d2|
    ensures Loaded(d2, next, overlap)
    ensures Pending(d2, next, overlap) == r2
  {
    if r2 < |d2| {
      return Some(d2[r2]), r2 + 1;
    }
    return None, r2;
  }

  /** `overlap` is the range just before reader position `r2`, or nothing once the reader has run out. */
  ghost predicate Loaded(d2: Line, r2: nat, overlap: Option<Range>) {
    && r2 <= |d2|
    && match overlap
       case Some(b) => 0 < r2 && b == d2[r2 - 1]
       case None => r2 == |d2|
  }

  ghost function Pending(d2: Line, r2: nat, overlap: Option<Range>): (j: nat)
    requires Loaded(d2, r2, overlap)
    ensures j <= |d2|
  {
    if overlap.Some? then r2 - 1 else r2
  }

  /** The normal form is unique: strict lines that cover the same pixels are the same list of ranges. */
  lemma {:induction false} StrictUnique(a: Line, b: Line)
    requires Strict(a) && Strict(b)
    requires forall x :: Covers(a, x) <==> Covers(b, x)
    ensures a == b
  {
    if a == [] {
      FirstPixel(b);
    } else {
      FirstPixel(a);
      SameFirstRange(a, b);
      SameFirstRange(b, a);
      forall x ensures Covers(a[1..], x) <==> Covers(b[1..], x) {
        TailCovers(a, x);
        TailCovers(b, x);
      }
      StrictUnique(a[1..], b[1..]);
    }
  }

  lemma FirstPixel(line: Line)
    requires NoEmptyRange(line)
    ensures line != [] ==> Covers(line, line[0].start)
  {
    if line != [] {
      assert InRange(line[0], line[0].start);
    }
  }

  lemma SameFirstRange(a: Line, b: Line)
    requires a != [] && b != [] && Strict(a) && Strict(b)
    requires forall x :: Covers(a, x) <==> Covers(b, x)
    ensures a[0].start <= b[0].start
    ensures a[0].start == b[0].start ==> a[0].end <= b[0].end
  {
    assert InRange(b[0], b[0].start) && Covers(b, b[0].start);
    assert !Covers(b, b[0].end);
    if a[0].start == b[0].start && b[0].end < a[0].end {
      assert InRange(a[0], b[0].end);
    }
  }

  lemma TailCovers(a: Line, x: int)
    requires a != [] && Strict(a)
    ensures Covers(a[1..], x) <==> Covers(a, x) && a[0].end <= x
  {
    assert a[0..] == a;
    CoversDrop(a, 0, x);
  }

  /** A strict line of at most 32766 pixels fits the signed 16-bit count that precedes it in a region. */
  lemma {:induction false} CountFits(line: Line, lo: int, hi: int)
    requires Strict(line) && lo <= hi
    requires forall i :: 0 <= i < |line| ==> lo <= line[i].start && line[i].end <= hi
    ensures 2 * |line| <= hi - lo + 1
  {
    if |line| > 1 {
      var rest := line[..|line| - 1];
      assert forall i :: 0 <= i < |rest| ==> rest[i].end < line[|line| - 1].start;
      assert lo <= rest[0].start < rest[0].end;
      CountFits(rest, lo, line[|line| - 1].start - 1);
    }
  }
}
