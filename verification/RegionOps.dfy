/** The boolean operations on whole regions (`emu/graphics/region.cc`). One sweep walks the rows of two
    streams in step, combines the lines in force, and writes a row whenever the result changes. */
module RegionOps {
  import opened Geometry
  import opened Scanlines
  import opened Regions

  datatype Op = OpUnion | OpIntersect | OpSubtract

  /** What each operation means for one pixel. */
  predicate Holds(op: Op, a: bool, b: bool) {
    match op
    case OpUnion => a || b
    case OpIntersect => a && b
    case OpSubtract => a && !b
  }

  ghost predicate LineOpHolds(op: Op, d1: Line, d2: Line, out: Line) {
    && Sorted(out)
    && (Strict(d1) && Strict(d2) ==> Strict(out))
    && (forall x :: Covers(out, x) <==> Holds(op, Covers(d1, x), Covers(d2, x)))
    && |out| <= |d1| + |d2|
  }

  method LineOp(op: Op, d1: Line, d2: Line) returns (out: Line)
    requires Sorted(d1) && Sorted(d2)
    ensures LineOpHolds(op, d1, d2, out)
  {
    match op
    case OpUnion => out := Scanlines.Union(d1, d2);
    case OpIntersect => out := Scanlines.Intersect(d1, d2);
    case OpSubtract => out := Scanlines.Subtract(d1, d2);
  }

  /** A row as the reader sees it: its `y`, and where its ranges lie in the stream. */
  datatype Scanline = Scanline(y: int, offset: nat, length: nat)

  predicate InStream(data: seq<int>, s: Scanline) {
    s.offset + s.length <= |data| && s.length % 2 == 0
  }

  function LineOf(data: seq<int>, s: Scanline): Line
    requires InStream(data, s)
  {
    ReadRanges(data[s.offset..s.offset + s.length])
  }

  /** Reader position `p` of the stream of `rows` stands before its `k`th row. */
  ghost predicate At(data: seq<int>, p: nat, rows: seq<Row>, k: nat) {
    p <= |data| && k <= |rows| && data[p..] == Encode(rows[k..])
  }

  lemma AtRow(data: seq<int>, p: nat, rows: seq<Row>, k: nat)
    requires At(data, p, rows, k)
    ensures p < |data| <==> k < |rows|
    ensures p < |data| ==>
              var row := rows[k];
              var n := 2 * |row.line|;
              && p + 2 + n <= |data| && data[p] == row.y && data[p + 1] == n
              && ReadRanges(data[p + 2..p + 2 + n]) == row.line
              && At(data, p + 2 + n, rows, k + 1)
  {
    var rest := rows[k..];
    if k < |rows| {
      ReadFirstRow(data[p..], rest);
      var n := 2 * |rest[0].line|;
      hide Encode, ReadRanges;
      assert data[p..][2..2 + n] == data[p + 2..p + 2 + n];
      assert data[p..][2 + n..] == data[p + 2 + n..];
      assert rest[1..] == rows[k + 1..];
    }
  }

  /** The reader's next `y`, if there is one. */
  lemma AtHead(data: seq<int>, p: nat, rows: seq<Row>, k: nat)
    requires At(data, p, rows, k)
    ensures p <= |data| && k <= |rows|
    ensures p < |data| <==> k < |rows|
    ensures p < |data| ==> data[p] == rows[k].y
  {
    AtRow(data, p, rows, k);
  }

  method AdvanceScanline(data: seq<int>, p: nat, scanline: Scanline, ghost rows: seq<Row>, ghost k: nat)
    returns (p': nat, scanline': Scanline)
    requires At(data, p, rows, k) && InStream(data, scanline)
    ensures InStream(data, scanline')
    ensures p == |data| ==> p' == p && scanline' == scanline
    ensures p < |data| ==>
              && k < |rows| && At(data, p', rows, k + 1)
              && scanline'.y == rows[k].y && LineOf(data, scanline') == rows[k].line
  {
    AtRow(data, p, rows, k);
    if p == |data| {
      return p, scanline;
    }
    var y := data[p];
    var count := data[p + 1];
    scanline' := Scanline(y, p + 2, count);
    p' := p + 2 + count;
  }

  /** Moves the reader whose next row comes first, or both when their rows start together. */
  method AdvanceLowest(data1: seq<int>, p1: nat, line1: Scanline, ghost rows1: seq<Row>, ghost k1: nat,
                       data2: seq<int>, p2: nat, line2: Scanline, ghost rows2: seq<Row>, ghost k2: nat)
    returns (p1': nat, line1': Scanline, ghost n1: nat, p2': nat, line2': Scanline, ghost n2: nat, currentY: int)
    requires At(data1, p1, rows1, k1) && At(data2, p2, rows2, k2)
    requires InStream(data1, line1) && LineOf(data1, line1) == LineBefore(rows1, k1)
    requires InStream(data2, line2) && LineOf(data2, line2) == LineBefore(rows2, k2)
    requires p1 < |data1| || p2 < |data2|
    ensures At(data1, p1', rows1, n1) && At(data2, p2', rows2, n2)
    ensures n1 <= |rows1| && InStream(data1, line1') && LineOf(data1, line1') == LineBefore(rows1, n1)
    ensures n2 <= |rows2| && InStream(data2, line2') && LineOf(data2, line2') == LineBefore(rows2, n2)
    ensures k1 <= n1 <= k1 + 1 && k2 <= n2 <= k2 + 1 && k1 + k2 < n1 + n2
    ensures if n1 == k1 + 1 then rows1[k1].y == currentY else n1 < |rows1| ==> currentY < rows1[n1].y
    ensures if n2 == k2 + 1 then rows2[k2].y == currentY else n2 < |rows2| ==> currentY < rows2[n2].y
  {
    AtHead(data1, p1, rows1, k1);
    AtHead(data2, p2, rows2, k2);
    hide At, LineOf;
    p1', line1', n1, p2', line2', n2 := p1, line1, k1, p2, line2, k2;
    if p1 < |data1| && (p2 == |data2| || data1[p1] < data2[p2]) {
      p1', line1' := AdvanceScanline(data1, p1, line1, rows1, k1);
      n1 := k1 + 1;
      currentY := line1'.y;
    } else if p2 < |data2| && (p1 == |data1| || data2[p2] < data1[p1]) {
      p2', line2' := AdvanceScanline(data2, p2, line2, rows2, k2);
      n2 := k2 + 1;
      currentY := line2'.y;
    } else {
      p1', line1' := AdvanceScanline(data1, p1, line1, rows1, k1);
      p2', line2' := AdvanceScanline(data2, p2, line2, rows2, k2);
      n1, n2 := k1 + 1, k2 + 1;
      currentY := line1'.y;
    }
  }

  method WriteScanline(y: int, line: Line, output: seq<int>) returns (output': seq<int>)
    ensures output' == output + EncodeRow(Row(y, line))
  {
    output' := output + [y];
    output' := output' + [2 * |line|];
    output' := output' + FlatLine(line);
  }

  // ---- The sweep --------------------------------------------------------------------------------

  /** After `k1` and `k2` rows: `out` has been written, `last` is the line it ends with, and no row
      read so far lies below `y`. */
  ghost predicate Swept(op: Op, rows1: seq<Row>, k1: nat, rows2: seq<Row>, k2: nat,
                        out: seq<Row>, last: Line, y: int) {
    && k1 <= |rows1| && k2 <= |rows2|
    && last == LineBefore(out, |out|)
    && LineOpHolds(op, LineBefore(rows1, k1), LineBefore(rows2, k2), last)
    && RowsInOrder(out)
    && NoRepeat(out)
    && Below(rows1, k1, y) && Below(rows2, k2, y) && Below(out, |out|, y)
    && Pixelwise(op, rows1[..k1], rows2[..k2], out)
    && (StrictRows(rows1) && StrictRows(rows2) ==> StrictRows(out) && Ahead(rows1, k1, out) && Ahead(rows2, k2, out))
  }

  /** The rows from `k` on lie strictly below everything written. */
  ghost predicate Ahead(rows: seq<Row>, k: nat, out: seq<Row>) {
    out != [] ==> forall i :: k <= i < |rows| ==> out[|out| - 1].y < rows[i].y
  }

  /** The first `k` rows lie at or above `y`, the others at or below. */
  ghost predicate Below(rows: seq<Row>, k: nat, y: int) {
    && (forall i :: 0 <= i < k && i < |rows| ==> rows[i].y <= y)
    && (forall i :: k <= i < |rows| ==> y <= rows[i].y)
  }

  ghost predicate Pixelwise(op: Op, rows1: seq<Row>, rows2: seq<Row>, out: seq<Row>) {
    forall x, y :: Covers(LineAt(out, y), x) <==> Holds(op, Covers(LineAt(rows1, y), x), Covers(LineAt(rows2, y), x))
  }

  /** Taking rows of both inputs at height `y`, and writing `line` unless it repeats the last one. */
  lemma PixelStep(op: Op, rows1: seq<Row>, k1: nat, n1: nat, rows2: seq<Row>, k2: nat, n2: nat,
                  out: seq<Row>, line: Line, y: int)
    requires k1 <= n1 <= k1 + 1 && n1 <= |rows1| && k2 <= n2 <= k2 + 1 && n2 <= |rows2|
    requires forall i :: 0 <= i < n1 ==> rows1[i].y <= y
    requires forall i :: 0 <= i < n2 ==> rows2[i].y <= y
    requires forall i :: 0 <= i < |out| ==> out[i].y <= y
    requires n1 == k1 + 1 ==> rows1[k1].y == y
    requires n2 == k2 + 1 ==> rows2[k2].y == y
    requires Pixelwise(op, rows1[..k1], rows2[..k2], out)
    requires LineOpHolds(op, LineBefore(rows1, n1), LineBefore(rows2, n2), line)
    ensures Pixelwise(op, rows1[..n1], rows2[..n2], out + [Row(y, line)])
    ensures line == LineBefore(out, |out|) ==> Pixelwise(op, rows1[..n1], rows2[..n2], out)
  {
    forall y' {
      LineAtAppend(out, Row(y, line), y');
    }
    forall y' ensures y' < y ==> LineAt(rows1[..n1], y') == LineAt(rows1[..k1], y')
              ensures y' < y ==> LineAt(rows2[..n2], y') == LineAt(rows2[..k2], y')
              ensures y' >= y ==> LineAt(rows1[..n1], y') == LineBefore(rows1, n1)
              ensures y' >= y ==> LineAt(rows2[..n2], y') == LineBefore(rows2, n2)
              ensures y' >= y ==> LineAt(out, y') == LineBefore(out, |out|)
    {
      PrefixLine(rows1, k1, n1, y, y');
      PrefixLine(rows2, k2, n2, y, y');
    }
  }

  lemma PrefixLine(rows: seq<Row>, k: nat, n: nat, y: int, y': int)
    requires k <= n <= k + 1 && n <= |rows|
    requires forall i :: 0 <= i < n ==> rows[i].y <= y
    requires n == k + 1 ==> rows[k].y == y
    ensures y' < y ==> LineAt(rows[..n], y') == LineAt(rows[..k], y')
    ensures y' >= y ==> LineAt(rows[..n], y') == LineBefore(rows, n)
  {
    if n > 0 {
      assert rows[..n] == rows[..n - 1] + [rows[n - 1]];
      LineAtAppend(rows[..n - 1], rows[n - 1], y');
    }
  }

  lemma SweepStep(op: Op, rows1: seq<Row>, k1: nat, n1: nat, rows2: seq<Row>, k2: nat, n2: nat,
                  out: seq<Row>, last: Line, y0: int, line: Line, y: int)
    requires Swept(op, rows1, k1, rows2, k2, out, last, y0)
    requires k1 <= n1 <= k1 + 1 && n1 <= |rows1| && k2 <= n2 <= k2 + 1 && n2 <= |rows2| && k1 + k2 < n1 + n2
    requires RowsInOrder(rows1) && RowsInOrder(rows2)
    requires n1 == k1 + 1 ==> rows1[k1].y == y
    requires n2 == k2 + 1 ==> rows2[k2].y == y
    requires n1 < |rows1| ==> if n1 == k1 then y < rows1[n1].y else y <= rows1[n1].y
    requires n2 < |rows2| ==> if n2 == k2 then y < rows2[n2].y else y <= rows2[n2].y
    requires LineOpHolds(op, LineBefore(rows1, n1), LineBefore(rows2, n2), line)
    ensures line != last ==> Swept(op, rows1, n1, rows2, n2, out + [Row(y, line)], line, y)
    ensures line == last ==> Swept(op, rows1, n1, rows2, n2, out, line, y)
  {
    hide StrictRows, NoRepeat, Pixelwise, Strict, Sorted;
    assert y0 <= y && IsInt16(y);
    hide RowsInOrder;
    if StrictRows(rows1) && StrictRows(rows2) {
      StrictInForce(rows1, n1);
      StrictInForce(rows2, n2);
      StrictAppend(out, Row(y, line));
      AheadStep(rows1, k1, n1, out, line, y);
      AheadStep(rows2, k2, n2, out, line, y);
    }
    PixelStep(op, rows1, k1, n1, rows2, k2, n2, out, line, y);
    BelowStep(rows1, k1, n1, y0, y);
    BelowStep(rows2, k2, n2, y0, y);
    InOrderAppend(out, Row(y, line));
    if line != last { NoRepeatAppend(out, Row(y, line)); }
    assert LineBefore(out + [Row(y, line)], |out| + 1) == line;
    BelowAppend(out, line, y0, y);
    hide LineOpHolds, Below, LineBefore;
  }

  lemma BelowStep(rows: seq<Row>, k: nat, n: nat, y0: int, y: int)
    requires RowsInOrder(rows) && Below(rows, k, y0) && y0 <= y
    requires k <= n <= k + 1 && n <= |rows|
    requires n == k + 1 ==> rows[k].y == y
    requires n < |rows| ==> y <= rows[n].y
    ensures Below(rows, n, y)
  {
  }

  lemma NothingHolds(op: Op)
    ensures LineOpHolds(op, [], [], []) && Pixelwise(op, [], [], [])
  {
  }

  lemma SweepBegin(op: Op, rows1: seq<Row>, rows2: seq<Row>) returns (y: int)
    requires RowsInOrder(rows1) && RowsInOrder(rows2)
    ensures Swept(op, rows1, 0, rows2, 0, [], [], y)
  {
    hide LineAt, Covers, Sorted, Strict, LineOpHolds, Pixelwise;
    NothingHolds(op);
    assert rows1[..0] == [] && rows2[..0] == [];
    y := if rows1 == [] then (if rows2 == [] then 0 else rows2[0].y)
         else if rows2 == [] then rows1[0].y else Min(rows1[0].y, rows2[0].y);
  }

  lemma AheadStep(rows: seq<Row>, k: nat, n: nat, out: seq<Row>, line: Line, y: int)
    requires StrictRows(rows) && Ahead(rows, k, out)
    requires k <= n <= k + 1 && n <= |rows|
    requires n == k + 1 ==> rows[k].y == y
    requires n == k && n < |rows| ==> y < rows[n].y
    ensures Ahead(rows, n, out) && Ahead(rows, n, out + [Row(y, line)])
  {
  }

  lemma SweepEnd(op: Op, rows1: seq<Row>, rows2: seq<Row>, out: seq<Row>, last: Line, y: int)
    requires Swept(op, rows1, |rows1|, rows2, |rows2|, out, last, y)
    requires LineBefore(rows1, |rows1|) == [] && LineBefore(rows2, |rows2|) == []
    ensures RowsInOrder(out) && (out != [] ==> out[|out| - 1].line == [])
    ensures NoRepeat(out)
    ensures StrictRows(rows1) && StrictRows(rows2) ==> NoIdleRow(out)
    ensures Pixelwise(op, rows1, rows2, out)
  {
    assert rows1[..|rows1|] == rows1 && rows2[..|rows2|] == rows2;
    StrictUnique(last, []);
  }

  lemma StrictInForce(rows: seq<Row>, k: nat)
    requires StrictRows(rows) && k <= |rows|
    ensures Strict(LineBefore(rows, k))
  {
  }

  lemma InOrderAppend(out: seq<Row>, row: Row)
    requires RowsInOrder(out) && Below(out, |out|, row.y) && IsInt16(row.y) && Sorted(row.line)
    ensures RowsInOrder(out + [row])
  {
  }

  lemma NoRepeatAppend(out: seq<Row>, row: Row)
    requires NoRepeat(out) && row.line != LineBefore(out, |out|)
    ensures NoRepeat(out + [row])
  {
    var longer := out + [row];
    forall i {:trigger LineBefore(longer, i)} | 0 <= i < |longer| ensures longer[i].line != LineBefore(longer, i) {
      assert LineBefore(longer, i) == LineBefore(out, i);
    }
  }

  lemma StrictAppend(out: seq<Row>, row: Row)
    requires StrictRows(out) && Strict(row.line)
    requires out != [] ==> out[|out| - 1].y < row.y
    ensures StrictRows(out + [row])
  {
    hide Strict;
  }

  lemma BelowAppend(out: seq<Row>, line: Line, y0: int, y: int)
    requires Below(out, |out|, y0) && y0 <= y
    ensures Below(out, |out|, y) && Below(out + [Row(y, line)], |out| + 1, y)
  {
  }

  // ---- The bounding rect ------------------------------------------------------------------------

  /** `rect` bounds every range written so far, and its top, left and right come from some row. */
  ghost predicate Bounded(out: seq<Row>, rect: Rect) {
    && (forall i :: 0 <= i < |out| ==> out[i].y <= rect.bottom)
    && (forall i :: 0 <= i < |out| && out[i].line != [] ==> InBounds(out[i], rect))
    && Sides16(rect)
    && (out != [] ==> rect.top == out[0].y)
    && (rect.left == INT16_MAX || exists i :: 0 <= i < |out| && StartsAt(out[i].line, rect.left))
    && (rect.right == INT16_MIN || exists i :: 0 <= i < |out| && EndsAt(out[i].line, rect.right))
  }

  ghost predicate InBounds(row: Row, rect: Rect)
    requires row.line != []
  {
    rect.top <= row.y && rect.left <= row.line[0].start && row.line[|row.line| - 1].end <= rect.right
  }

  ghost predicate StartsAt(line: Line, x: int) {
    line != [] && line[0].start == x
  }

  ghost predicate EndsAt(line: Line, x: int) {
    line != [] && line[|line| - 1].end == x
  }

  /** The rect after one more line, whether or not the line was written. */
  function GrowRect(rect: Rect, line: Line, y: int): Rect {
    (if line == [] then rect else
       Rect(Min(y, rect.top), Min(line[0].start, rect.left), rect.bottom, Max(line[|line| - 1].end, rect.right))
    ).(bottom := y)
  }

  method UpdateBounds(rect: Rect, toWrite: Line, currentY: int) returns (rect': Rect)
    ensures rect' == GrowRect(rect, toWrite, currentY)
  {
    rect' := rect;
    if toWrite != [] {
      rect' := rect'.(top := Min(currentY, rect'.top));
      rect' := rect'.(left := Min(toWrite[0].start, rect'.left));
      rect' := rect'.(right := Max(toWrite[|toWrite| - 1].end, rect'.right));
    }
    rect' := rect'.(bottom := currentY);
  }

  lemma BoundedStep(out: seq<Row>, last: Line, rect: Rect, line: Line, y: int)
    requires Bounded(out, rect) && Below(out, |out|, y) && NoRepeat(out)
    requires IsInt16(y) && Sorted(line)
    requires last == LineBefore(out, |out|)
    requires out == [] ==> rect.top == INT16_MAX
    ensures line != last ==> Bounded(out + [Row(y, line)], GrowRect(rect, line, y))
    ensures line == last ==>
              Bounded(out, GrowRect(rect, line, y)) && (out == [] ==> GrowRect(rect, line, y).top == INT16_MAX)
  {
    var rect' := GrowRect(rect, line, y);
    var out' := if line != last then out + [Row(y, line)] else out;
    if out != [] {
      assert LineBefore(out, 0) == [] != out[0].line;
      assert InBounds(out[0], rect);
    }
    if line == last && line != [] {
      assert out[|out| - 1].line == line && InBounds(out[|out| - 1], rect);
    }
    forall i | 0 <= i < |out'| && out'[i].line != [] ensures InBounds(out'[i], rect') {
      if i < |out| { assert out'[i] == out[i] && InBounds(out[i], rect); }
    }
    if line != [] {
      assert StartsAt(out'[|out'| - 1].line, line[0].start) && EndsAt(out'[|out'| - 1].line, line[|line| - 1].end);
    }
    if rect.left != INT16_MAX {
      var i :| 0 <= i < |out| && StartsAt(out[i].line, rect.left);
      assert StartsAt(out'[i].line, rect.left);
    }
    if rect.right != INT16_MIN {
      var i :| 0 <= i < |out| && EndsAt(out[i].line, rect.right);
      assert EndsAt(out'[i].line, rect.right);
    }
  }

  lemma CoversBounds(line: Line, x: int)
    requires Sorted(line) && Covers(line, x)
    ensures line != [] && line[0].start <= x < line[|line| - 1].end
  {
  }

  lemma AfterLastRow(rows: seq<Row>, y: int)
    ensures rows != [] && rows[|rows| - 1].line == [] && rows[|rows| - 1].y <= y ==> LineAt(rows, y) == []
  {
  }

  lemma BoundedEncloses(data: seq<int>, rows: seq<Row>, rect: Rect)
    requires rows == Decode(data) && Readable(data) && Bounded(rows, rect)
    ensures Encloses(rect, data)
  {
    forall x, y | Contains(data, x, y) ensures PointInRect(x, y, rect) {
      PixelInBounds(rows, rect, x, y);
    }
    hide Bounded, Covers, LineAt;
  }

  lemma PixelInBounds(rows: seq<Row>, rect: Rect, x: int, y: int)
    requires RowsInOrder(rows) && (rows != [] ==> rows[|rows| - 1].line == []) && Bounded(rows, rect)
    requires Covers(LineAt(rows, y), x)
    ensures PointInRect(x, y, rect)
  {
    var i := LineAtSource(rows, y);
    CoversBounds(rows[i].line, x);
    AfterLastRow(rows, y);
    hide Covers, LineAt, RowsInOrder;
    assert InBounds(rows[i], rect);
  }

  lemma StrictEnds(line: Line)
    requires Strict(line) && line != []
    ensures Covers(line, line[0].start) && Covers(line, line[|line| - 1].end - 1)
  {
    assert InRange(line[0], line[0].start) && InRange(line[|line| - 1], line[|line| - 1].end - 1);
  }

  lemma RowContains(data: seq<int>, i: nat)
    requires Canonical(data) && i < |Decode(data)| && Decode(data)[i].line != []
    ensures var row := Decode(data)[i];
            Contains(data, row.line[0].start, row.y) && Contains(data, row.line[|row.line| - 1].end - 1, row.y)
  {
    var rows := Decode(data);
    LineAtRow(rows, i, rows[i].y);
    StrictEnds(rows[i].line);
  }

  lemma LeftAttained(data: seq<int>, rect: Rect) returns (y: int)
    requires Canonical(data) && data != []
    requires Bounded(Decode(data), rect)
    ensures Contains(data, rect.left, y)
  {
    hide Encode, Decode, Contains, LineAt, Covers;
    var rows := Decode(data);
    FirstRowFull(data);
    var i := 0;
    if rect.left != INT16_MAX {
      i :| 0 <= i < |rows| && StartsAt(rows[i].line, rect.left);
    }
    assert InBounds(rows[i], rect);
    RowContains(data, i);
    y := rows[i].y;
  }

  /** Some row reaches as far as the rect does. */
  lemma RightmostRow(rows: seq<Row>, rect: Rect) returns (i: nat)
    requires RowsInOrder(rows) && Bounded(rows, rect)
    requires rows != [] && rows[0].line != []
    ensures i < |rows| && EndsAt(rows[i].line, rect.right)
  {
    i := 0;
    if rect.right != INT16_MIN {
      i :| 0 <= i < |rows| && EndsAt(rows[i].line, rect.right);
    } else {
      assert InBounds(rows[0], rect) && IsInt16(rows[0].line[|rows[0].line| - 1].end);
    }
  }

  lemma RightAttained(data: seq<int>, rect: Rect) returns (y: int)
    requires Canonical(data) && data != []
    requires Bounded(Decode(data), rect)
    ensures Contains(data, rect.right - 1, y)
  {
    hide Encode, Decode, Contains, LineAt, Covers, Strict, Sorted, Bounded;
    FirstRowFull(data);
    var i := RightmostRow(Decode(data), rect);
    RowContains(data, i);
    y := Decode(data)[i].y;
  }

  lemma TopAttained(data: seq<int>, rect: Rect) returns (x: int)
    requires Canonical(data) && data != []
    requires Bounded(Decode(data), rect)
    ensures Contains(data, x, rect.top)
  {
    FirstRowFull(data);
    RowContains(data, 0);
    x := Decode(data)[0].line[0].start;
  }

  lemma BoundedAttains(data: seq<int>, rect: Rect)
    requires Canonical(data) && data != []
    requires Bounded(Decode(data), rect)
    ensures Attains(rect, data)
  {
    hide Canonical, Contains, Bounded, Decode;
    var xTop := TopAttained(data, rect);
    var yLeft := LeftAttained(data, rect);
    var yRight := RightAttained(data, rect);
  }

  lemma BoundedOrdered(rows: seq<Row>, rect: Rect)
    requires RowsInOrder(rows) && NoRepeat(rows) && Bounded(rows, rect)
    ensures rows != [] ==> Ordered(rect)
  {
    if rows != [] {
      assert LineBefore(rows, 0) == [] != rows[0].line;
      assert InBounds(rows[0], rect);
    }
  }

  lemma FirstRowFull(data: seq<int>)
    requires Canonical(data) && data != []
    ensures Decode(data) != [] && Decode(data)[0].line != []
  {
    assert LineBefore(Decode(data), 0) == [];
  }

  /** The row just above the lower end of the operands holds a pixel of the result: always in a union; in an
      intersection if both end there and share a pixel just above; in a difference if the first reaches further, or both
      end there and the first has a pixel just above that the second has not. */
  ghost predicate BottomHeld(op: Op, a: seq<int>, b: seq<int>) {
    match op
    case OpUnion => true
    case OpIntersect => EndY(a) == EndY(b) && RowShared(a, b, EndY(a) - 1)
    case OpSubtract =>
      EndY(b) < EndY(a) || (EndY(a) == EndY(b) && RowLeft(a, b, EndY(a) - 1))
  }

  ghost predicate RowShared(a: seq<int>, b: seq<int>, y: int) {
    exists x :: Contains(a, x, y) && Contains(b, x, y)
  }

  ghost predicate RowLeft(a: seq<int>, b: seq<int>, y: int) {
    exists x :: Contains(a, x, y) && !Contains(b, x, y)
  }

  /** The bottom of the bounding rect is attained exactly when the operands say so. */
  lemma BottomAttained(op: Op, a: seq<int>, b: seq<int>, out: seq<int>)
    requires forall x, y :: Contains(out, x, y) <==> Holds(op, Contains(a, x, y), Contains(b, x, y))
    ensures Canonical(a) && Canonical(b) && Canonical(out) && out != [] ==>
              (RowHolds(out, Max(EndY(a), EndY(b)) - 1) <==> BottomHeld(op, a, b))
  {
    hide Canonical, Contains, EndY;
    if Canonical(a) && Canonical(b) && Canonical(out) && out != [] {
      FullAboveEnd(out);
      var bottom := Max(EndY(a), EndY(b)) - 1;
      if a != [] {
        FullAboveEnd(a);
      } else {
        NothingAtAll(a);
      }
      if b != [] {
        FullAboveEnd(b);
      } else {
        NothingAtAll(b);
      }
      forall x ensures EndY(a) <= bottom ==> !Contains(a, x, bottom) {
        CanonicalReadable(a);
        if EndY(a) <= bottom { NothingAfterEnd(a, x, bottom); }
      }
      forall x ensures EndY(b) <= bottom ==> !Contains(b, x, bottom) {
        CanonicalReadable(b);
        if EndY(b) <= bottom { NothingAfterEnd(b, x, bottom); }
      }
    }
  }

  lemma ResultMeans(op: Op, a: seq<int>, b: seq<int>, out: seq<int>)
    requires IsResult(op, a, b, out)
    ensures Canonical(out) && forall x, y :: Contains(out, x, y) <==> Holds(op, Contains(a, x, y), Contains(b, x, y))
  {
  }

  lemma CanonicalReadable(data: seq<int>)
    requires Canonical(data)
    ensures Readable(data)
  {
  }

  lemma NothingAtAll(data: seq<int>)
    requires data == []
    ensures EndY(data) == INT16_MIN && forall x, y :: !Contains(data, x, y)
  {
  }

  /** No row written is longer than two rows of the operands together. */
  ghost predicate NoLonger(out: seq<Row>, rows1: seq<Row>, rows2: seq<Row>) {
    forall i :: 0 <= i < |out| ==> |out[i].line| <= Longest(rows1) + Longest(rows2)
  }

  lemma NothingLong(rows1: seq<Row>, rows2: seq<Row>)
    ensures NoLonger([], rows1, rows2)
  {
  }

  lemma LineNoLonger(op: Op, rows1: seq<Row>, n1: nat, rows2: seq<Row>, n2: nat, out: seq<Row>, line: Line, y: int)
    requires n1 <= |rows1| && n2 <= |rows2| && LineOpHolds(op, LineBefore(rows1, n1), LineBefore(rows2, n2), line)
    ensures NoLonger(out, rows1, rows2) ==> NoLonger(out + [Row(y, line)], rows1, rows2)
  {
    LongestIs(rows1, Longest(rows1));
    LongestIs(rows2, Longest(rows2));
    hide Longest;
  }

  lemma LongestOf(out: seq<Row>, rows1: seq<Row>, rows2: seq<Row>)
    requires NoLonger(out, rows1, rows2)
    ensures Longest(out) <= Longest(rows1) + Longest(rows2)
  {
    LongestIs(out, Longest(rows1) + Longest(rows2));
  }

  /** With few enough ranges in every row, the stored stream is the intended one. */
  lemma FewEnoughRanges(data: seq<int>)
    requires Readable(data)
    ensures Longest(Decode(data)) <= 16383 <==> Stored(Decode(data)) == data
  {
    StoredIsIntended(Decode(data));
    LongestIs(Decode(data), 16383);
  }

  /** The rect reaches down to the last row read. */
  ghost predicate ReachesDown(rect: Rect, rows1: seq<Row>, k1: nat, rows2: seq<Row>, k2: nat) {
    k1 <= |rows1| && k2 <= |rows2| && rect.bottom == Max(LastY(rows1, k1), LastY(rows2, k2))
  }

  lemma ReachesEnd(rect: Rect, d1: seq<int>, d2: seq<int>)
    requires ReachesDown(rect, Decode(d1), |Decode(d1)|, Decode(d2), |Decode(d2)|)
    ensures rect.bottom == Max(EndY(d1), EndY(d2))
  {
  }

  /** A rect ten rows high cut by one five rows high: the result's bounding rect still reaches down ten rows. */
  lemma BottomNotAttained(out: seq<int>)
    requires IsResult(OpIntersect, [0, 2, 0, 1, 10, 0], [0, 2, 0, 1, 5, 0], out)
    ensures Max(EndY([0, 2, 0, 1, 10, 0]), EndY([0, 2, 0, 1, 5, 0])) == 10
    ensures RowHolds(out, 4) && !RowHolds(out, 5) && !RowHolds(out, 9)
  {
    var tall, short := Rect(0, 0, 10, 1), Rect(0, 0, 5, 1);
    RectRows(tall, [0, 2, 0, 1, 10, 0]);
    RectRows(short, [0, 2, 0, 1, 5, 0]);
    RectEnd(tall, [0, 2, 0, 1, 10, 0]);
    RectEnd(short, [0, 2, 0, 1, 5, 0]);
    ResultMeans(OpIntersect, [0, 2, 0, 1, 10, 0], [0, 2, 0, 1, 5, 0], out);
    hide Contains, Canonical, Readable, EndY;
    assert Contains(out, 0, 4);
  }

  lemma RectEnd(rect: Rect, data: seq<int>)
    requires data == [rect.top, 2, rect.left, rect.right, rect.bottom, 0]
    ensures EndY(data) == rect.bottom
  {
    var rows := [Row(rect.top, [Range(rect.left, rect.right)]), Row(rect.bottom, [])];
    TwoRowStream(rect, data);
    DecodeEncode(rows);
  }

  // ---- The operation ----------------------------------------------------------------------------

  method RegionOp(op: Op, r1: Region, r2: Region) returns (result: Region)
    requires Readable(r1.data) && Readable(r2.data)
    ensures Readable(result.data)
    ensures Canonical(r1.data) && Canonical(r2.data) ==> Canonical(result.data)
    ensures forall x, y :: Contains(result.data, x, y)
                           <==> Holds(op, Contains(r1.data, x, y), Contains(r2.data, x, y))
    ensures Encloses(result.rect, result.data) && Ordered(result.rect)
    ensures result.data == [] ==> result.rect == ZERO_RECT
    ensures result.data != [] ==> result.rect.bottom == Max(EndY(r1.data), EndY(r2.data))
    ensures result.data != [] ==> Bounded(Decode(result.data), result.rect)
    ensures Longest(Decode(result.data)) <= Longest(Decode(r1.data)) + Longest(Decode(r2.data))
    ensures Longest(Decode(r1.data)) + Longest(Decode(r2.data)) <= 16383 ==> Stored(Decode(result.data)) == result.data
    ensures result.data != [] && Canonical(r1.data) && Canonical(r2.data) ==>
              && Attains(result.rect, result.data)
              && (RowHolds(result.data, result.rect.bottom - 1) <==> BottomHeld(op, r1.data, r2.data))
  {
    hide *;
    ghost var out, last, y;
    var output, rect;
    output, rect, out, last, y := Sweep(op, r1.data, r2.data);
    Conclude(op, r1.data, r2.data, output, out, last, y, rect);
    FewEnoughRanges(output);
    if output == [] {
      rect := ZERO_RECT;
    }
    result := Region(rect, output);
  }

  /** Reads both streams from top to bottom, writing a row where the result changes. */
  method Sweep(op: Op, d1: seq<int>, d2: seq<int>)
    returns (output: seq<int>, rect: Rect, ghost out: seq<Row>, ghost last: Line, ghost y: int)
    requires Readable(d1) && Readable(d2)
    ensures output == Encode(out) && Bounded(out, rect)
    ensures Swept(op, Decode(d1), |Decode(d1)|, Decode(d2), |Decode(d2)|, out, last, y)
    ensures ReachesDown(rect, Decode(d1), |Decode(d1)|, Decode(d2), |Decode(d2)|)
    ensures NoLonger(out, Decode(d1), Decode(d2))
  {
    NothingEncoded();
    ReadableRows(d1);
    ReadableRows(d2);
    hide *;
    ghost var rows1, rows2 := Decode(d1), Decode(d2);
    ghost var k1: nat, k2: nat := 0, 0;
    out := [];
    y := SweepBegin(op, rows1, rows2);
    var p1: nat, p2: nat := 0, 0;
    var line1, line2 := Scanline(0, 0, 0), Scanline(0, 0, 0);
    var lastWritten: Line := [];
    rect := Rect(INT16_MAX, INT16_MAX, INT16_MIN, INT16_MIN);
    output := [];
    StreamStarts(d1);
    StreamStarts(d2);
    assert LineOf(d1, line1) == LineOf(d2, line2) == LineBefore(rows1, 0) == LineBefore(rows2, 0) by {
      NothingInForce(d1, rows1);
      NothingInForce(d2, rows2);
    }
    BoundedNothing(rect, rows1, rows2);
    NothingLong(rows1, rows2);

    while p1 < |d1| || p2 < |d2|
      invariant k1 <= |rows1| && k2 <= |rows2|
      invariant At(d1, p1, rows1, k1) && At(d2, p2, rows2, k2)
      invariant InStream(d1, line1) && LineOf(d1, line1) == LineBefore(rows1, k1)
      invariant InStream(d2, line2) && LineOf(d2, line2) == LineBefore(rows2, k2)
      invariant Swept(op, rows1, k1, rows2, k2, out, lastWritten, y)
      invariant output == Encode(out)
      invariant Bounded(out, rect) && (out == [] ==> rect.top == INT16_MAX)
      invariant ReachesDown(rect, rows1, k1, rows2, k2) && NoLonger(out, rows1, rows2)
      decreases |rows1| + |rows2| - k1 - k2
    {
      ghost var o1, o2 := k1, k2;
      AtHead(d1, p1, rows1, k1);
      AtHead(d2, p2, rows2, k2);
      var currentY;
      p1, line1, k1, p2, line2, k2, currentY :=
        AdvanceLowest(d1, p1, line1, rows1, k1, d2, p2, line2, rows2, k2);
      SortedInForce(rows1, k1);
      SortedInForce(rows2, k2);
      var toWrite := LineOp(op, LineOf(d1, line1), LineOf(d2, line2));
      RowTaken(op, rows1, o1, k1, rows2, o2, k2, out, lastWritten, y, rect, toWrite, currentY);
      y := currentY;
      if toWrite != lastWritten {
        output := WriteScanline(currentY, toWrite, output);
        lastWritten := toWrite;
        out := out + [Row(y, toWrite)];
      }
      rect := UpdateBounds(rect, toWrite, currentY);
    }
    AtHead(d1, p1, rows1, k1);
    AtHead(d2, p2, rows2, k2);
    last := lastWritten;
  }

  /** What the sweep has done when both inputs are read. */
  lemma Conclude(op: Op, d1: seq<int>, d2: seq<int>, output: seq<int>, out: seq<Row>, last: Line, y: int, rect: Rect)
    requires Readable(d1) && Readable(d2) && output == Encode(out) && Bounded(out, rect)
    requires Swept(op, Decode(d1), |Decode(d1)|, Decode(d2), |Decode(d2)|, out, last, y)
    requires ReachesDown(rect, Decode(d1), |Decode(d1)|, Decode(d2), |Decode(d2)|)
    requires NoLonger(out, Decode(d1), Decode(d2))
    ensures Longest(Decode(output)) <= Longest(Decode(d1)) + Longest(Decode(d2))
    ensures Readable(output)
    ensures Canonical(d1) && Canonical(d2) ==> Canonical(output)
    ensures forall x, y :: Contains(output, x, y) <==> Holds(op, Contains(d1, x, y), Contains(d2, x, y))
    ensures if output == [] then Encloses(ZERO_RECT, output) && Ordered(ZERO_RECT)
            else Encloses(rect, output) && Ordered(rect)
    ensures output != [] ==> rect.bottom == Max(EndY(d1), EndY(d2)) && Bounded(Decode(output), rect)
    ensures output != [] && Canonical(d1) && Canonical(d2) ==>
              Attains(rect, output) && (RowHolds(output, rect.bottom - 1) <==> BottomHeld(op, d1, d2))
  {
    hide *;
    ReadableRows(d1);
    ReadableRows(d2);
    SweepEnd(op, Decode(d1), Decode(d2), out, last, y);
    DecodeEncode(out);
    Finish(op, d1, d2, output, out, rect);
    ReachesEnd(rect, d1, d2);
    BottomAttained(op, d1, d2, output);
    LongestOf(out, Decode(d1), Decode(d2));
  }

  lemma ReadableRows(data: seq<int>)
    requires Readable(data)
    ensures RowsInOrder(Decode(data)) && LineBefore(Decode(data), |Decode(data)|) == []
  {
  }

  lemma StreamStarts(data: seq<int>)
    requires Readable(data)
    ensures At(data, 0, Decode(data), 0)
  {
    assert data[0..] == data && Decode(data)[0..] == Decode(data);
  }

  lemma NothingInForce(data: seq<int>, rows: seq<Row>)
    ensures InStream(data, Scanline(0, 0, 0)) && LineOf(data, Scanline(0, 0, 0)) == LineBefore(rows, 0) == []
  {
  }

  lemma BoundedNothing(rect: Rect, rows1: seq<Row>, rows2: seq<Row>)
    requires rect == Rect(INT16_MAX, INT16_MAX, INT16_MIN, INT16_MIN)
    ensures Bounded([], rect) && ReachesDown(rect, rows1, 0, rows2, 0)
  {
  }

  lemma SortedInForce(rows: seq<Row>, k: nat)
    requires RowsInOrder(rows) && k <= |rows|
    ensures Sorted(LineBefore(rows, k))
  {
  }

  lemma RowTaken(op: Op, rows1: seq<Row>, k1: nat, n1: nat, rows2: seq<Row>, k2: nat, n2: nat,
                 out: seq<Row>, last: Line, y0: int, rect: Rect, line: Line, y: int)
    requires Swept(op, rows1, k1, rows2, k2, out, last, y0)
    requires Bounded(out, rect) && (out == [] ==> rect.top == INT16_MAX)
    requires k1 <= n1 <= k1 + 1 && n1 <= |rows1| && k2 <= n2 <= k2 + 1 && n2 <= |rows2| && k1 + k2 < n1 + n2
    requires RowsInOrder(rows1) && RowsInOrder(rows2)
    requires if n1 == k1 + 1 then rows1[k1].y == y else n1 < |rows1| ==> y < rows1[n1].y
    requires if n2 == k2 + 1 then rows2[k2].y == y else n2 < |rows2| ==> y < rows2[n2].y
    requires LineOpHolds(op, LineBefore(rows1, n1), LineBefore(rows2, n2), line)
    ensures var out' := if line != last then out + [Row(y, line)] else out;
            && Swept(op, rows1, n1, rows2, n2, out', line, y)
            && Bounded(out', GrowRect(rect, line, y))
            && (out' == [] ==> GrowRect(rect, line, y).top == INT16_MAX)
            && ReachesDown(GrowRect(rect, line, y), rows1, n1, rows2, n2)
            && (NoLonger(out, rows1, rows2) ==> NoLonger(out', rows1, rows2))
            && Encode(out') == if line != last then Encode(out) + EncodeRow(Row(y, line)) else Encode(out)
  {
    SweepStep(op, rows1, k1, n1, rows2, k2, n2, out, last, y0, line, y);
    SweptFacts(op, rows1, k1, rows2, k2, out, last, y0);
    assert Below(out, |out|, y);
    assert IsInt16(y);
    ReachStep(op, rows1, n1, rows2, n2, if line != last then out + [Row(y, line)] else out, rect, line, y);
    LineNoLonger(op, rows1, n1, rows2, n2, out, line, y);
    hide ReachesDown, NoLonger;
    hide Swept, Below, RowsInOrder, LineOpHolds;
    BoundedStep(out, last, rect, line, y);
    EncodeAppend(out, Row(y, line));
  }

  lemma ReachStep(op: Op, rows1: seq<Row>, n1: nat, rows2: seq<Row>, n2: nat, out: seq<Row>, rect: Rect, line: Line,
                  y: int)
    requires Swept(op, rows1, n1, rows2, n2, out, line, y) && IsInt16(y)
    requires (n1 > 0 && rows1[n1 - 1].y == y) || (n2 > 0 && rows2[n2 - 1].y == y)
    ensures ReachesDown(GrowRect(rect, line, y), rows1, n1, rows2, n2)
  {
    SweptFacts(op, rows1, n1, rows2, n2, out, line, y);
    hide Swept;
  }

  lemma SweptFacts(op: Op, rows1: seq<Row>, k1: nat, rows2: seq<Row>, k2: nat, out: seq<Row>, last: Line, y: int)
    requires Swept(op, rows1, k1, rows2, k2, out, last, y)
    ensures k1 <= |rows1| && k2 <= |rows2|
    ensures Below(rows1, k1, y) && Below(rows2, k2, y) && Below(out, |out|, y)
    ensures NoRepeat(out) && last == LineBefore(out, |out|)
  {
  }

  lemma Finish(op: Op, d1: seq<int>, d2: seq<int>, output: seq<int>, out: seq<Row>, rect: Rect)
    requires Readable(d1) && Readable(d2)
    requires output == Encode(out) && out == Decode(output)
    requires RowsInOrder(out) && (out != [] ==> out[|out| - 1].line == [])
    requires StrictRows(Decode(d1)) && StrictRows(Decode(d2)) ==> NoIdleRow(out)
    requires Pixelwise(op, Decode(d1), Decode(d2), out)
    requires NoRepeat(out) && Bounded(out, rect)
    ensures Readable(output)
    ensures Canonical(d1) && Canonical(d2) ==> Canonical(output)
    ensures forall x, y :: Contains(output, x, y) <==> Holds(op, Contains(d1, x, y), Contains(d2, x, y))
    ensures Encloses(rect, output) && (output == [] ==> Encloses(ZERO_RECT, output))
    ensures if output == [] then Ordered(ZERO_RECT) else Ordered(rect)
    ensures output != [] && Canonical(d1) && Canonical(d2) ==> Attains(rect, output)
  {
    hide Encode, Decode, Bounded, NoIdleRow, RowsInOrder, StrictRows;
    BoundedEncloses(output, out, rect);
    NoRowsNoPixels(out);
    NothingEncoded();
    BoundedOrdered(out, rect);
    CanonicalRows(d1);
    CanonicalRows(d2);
    PixelsOf(op, d1, d2, output);
    hide LineAt, Pixelwise, Readable, Contains;
    if output != [] && Canonical(d1) && Canonical(d2) {
      BoundedAttains(output, rect);
    }
  }

  lemma PixelsOf(op: Op, d1: seq<int>, d2: seq<int>, output: seq<int>)
    requires Pixelwise(op, Decode(d1), Decode(d2), Decode(output))
    ensures forall x, y :: Contains(output, x, y) <==> Holds(op, Contains(d1, x, y), Contains(d2, x, y))
  {
  }

  lemma NoRowsNoPixels(out: seq<Row>)
    ensures Encode(out) == [] ==> forall x, y :: !Covers(LineAt(out, y), x)
  {
    if out != [] {
      assert |Encode(out)| >= |EncodeRow(out[0])| >= 2;
    }
  }

  lemma CanonicalRows(data: seq<int>)
    ensures Canonical(data) ==> StrictRows(Decode(data))
  {
  }

  method Union(r1: Region, r2: Region) returns (result: Region)
    requires Readable(r1.data) && Readable(r2.data)
    ensures Readable(result.data) && Encloses(result.rect, result.data) && Ordered(result.rect)
    ensures result.data == [] ==> result.rect == Rect(0, 0, 0, 0)
    ensures result.data != [] ==> result.rect.bottom == Max(EndY(r1.data), EndY(r2.data))
    ensures result.data != [] ==> Bounded(Decode(result.data), result.rect)
    ensures result.data != [] && Canonical(r1.data) && Canonical(r2.data) ==> Attains(result.rect, result.data)
    ensures Canonical(r1.data) && Canonical(r2.data) ==> Canonical(result.data)
    ensures forall x, y :: Contains(result.data, x, y) <==> Contains(r1.data, x, y) || Contains(r2.data, x, y)
  {
    result := RegionOp(OpUnion, r1, r2);
  }

  method Intersect(r1: Region, r2: Region) returns (result: Region)
    requires Readable(r1.data) && Readable(r2.data)
    ensures Readable(result.data) && Encloses(result.rect, result.data) && Ordered(result.rect)
    ensures result.data == [] ==> result.rect == Rect(0, 0, 0, 0)
    ensures result.data != [] ==> result.rect.bottom == Max(EndY(r1.data), EndY(r2.data))
    ensures result.data != [] ==> Bounded(Decode(result.data), result.rect)
    ensures result.data != [] && Canonical(r1.data) && Canonical(r2.data) ==> Attains(result.rect, result.data)
    ensures Canonical(r1.data) && Canonical(r2.data) ==> Canonical(result.data)
    ensures forall x, y :: Contains(result.data, x, y) <==> Contains(r1.data, x, y) && Contains(r2.data, x, y)
  {
    result := RegionOp(OpIntersect, r1, r2);
  }

  method Subtract(r1: Region, r2: Region) returns (result: Region)
    requires Readable(r1.data) && Readable(r2.data)
    ensures Readable(result.data) && Encloses(result.rect, result.data) && Ordered(result.rect)
    ensures result.data == [] ==> result.rect == Rect(0, 0, 0, 0)
    ensures result.data != [] ==> result.rect.bottom == Max(EndY(r1.data), EndY(r2.data))
    ensures result.data != [] ==> Bounded(Decode(result.data), result.rect)
    ensures result.data != [] && Canonical(r1.data) && Canonical(r2.data) ==> Attains(result.rect, result.data)
    ensures Canonical(r1.data) && Canonical(r2.data) ==> Canonical(result.data)
    ensures forall x, y :: Contains(result.data, x, y) <==> Contains(r1.data, x, y) && !Contains(r2.data, x, y)
  {
    result := RegionOp(OpSubtract, r1, r2);
  }

  // ---- Rectangles and translation ---------------------------------------------------------------

  /** The region of a rect. An inside-out rect gives a stream that the region operations do not accept. */
  method NewRectRegion(rect: Rect) returns (result: Region)
    requires Sides16(rect)
    ensures result.rect == rect && result.data == [rect.top, 2, rect.left, rect.right, rect.bottom, 0]
    ensures EndY(result.data) == rect.bottom
    ensures Readable(result.data) <==> Ordered(rect)
    ensures !EmptyRect(rect) ==> Canonical(result.data)
    ensures Ordered(rect) ==> forall x, y :: Contains(result.data, x, y) <==> PointInRect(x, y, rect)
  {
    var data: seq<int> := [];
    data := data + [rect.top];
    data := data + [2];
    data := data + [rect.left];
    data := data + [rect.right];
    data := data + [rect.bottom];
    data := data + [0];
    RectReadable(rect, data);
    RectEnd(rect, data);
    if Ordered(rect) {
      RectRows(rect, data);
    }
    result := Region(rect, data);
  }

  lemma RectReadable(rect: Rect, data: seq<int>)
    requires Sides16(rect)
    requires data == [rect.top, 2, rect.left, rect.right, rect.bottom, 0]
    ensures Readable(data) ==> Ordered(rect)
  {
    var line := [Range(rect.left, rect.right)];
    var rows := [Row(rect.top, line), Row(rect.bottom, [])];
    TwoRowStream(rect, data);
    DecodeEncode(rows);
    if Readable(data) {
      assert Decode(data) == rows && Sorted(rows[0].line) && rows[0].y <= rows[1].y;
      assert line[0].start <= line[0].end;
    }
  }

  lemma RectRows(rect: Rect, data: seq<int>)
    requires Ordered(rect)
    requires data == [rect.top, 2, rect.left, rect.right, rect.bottom, 0]
    ensures Readable(data)
    ensures !EmptyRect(rect) ==> Canonical(data)
    ensures forall x, y :: Contains(data, x, y) <==> PointInRect(x, y, rect)
  {
    var line := [Range(rect.left, rect.right)];
    var rows := [Row(rect.top, line), Row(rect.bottom, [])];
    TwoRowStream(rect, data);
    DecodeEncode(rows);
    hide Encode, Decode, Covers, LineAt;
    forall x, y ensures Contains(data, x, y) <==> PointInRect(x, y, rect) {
      TwoRowsAt(rect, y);
      OneRange(line[0], x);
    }
    if !EmptyRect(rect) {
      assert LineBefore(rows, 0) == [] && LineBefore(rows, 1) == line;
    }
  }

  /** The line in force in the two rows of a rect. */
  lemma TwoRowsAt(rect: Rect, y: int)
    requires rect.top <= rect.bottom
    ensures var line := [Range(rect.left, rect.right)];
            LineAt([Row(rect.top, line), Row(rect.bottom, [])], y)
            == if rect.top <= y < rect.bottom then line else []
  {
    var first, second := Row(rect.top, [Range(rect.left, rect.right)]), Row(rect.bottom, []);
    LineAtAppend([first], second, y);
    LineAtAppend([], first, y);
    assert [] + [first] == [first] && [first] + [second] == [first, second];
  }

  lemma OneRange(range: Range, x: int)
    ensures Covers([range], x) <==> InRange(range, x)
  {
    var line := [range];
    assert line[0] == range;
  }

  lemma TwoRowStream(rect: Rect, data: seq<int>)
    requires data == [rect.top, 2, rect.left, rect.right, rect.bottom, 0]
    ensures Encode([Row(rect.top, [Range(rect.left, rect.right)]), Row(rect.bottom, [])]) == data
  {
    var span := Range(rect.left, rect.right);
    var first, second := Row(rect.top, [span]), Row(rect.bottom, []);
    EncodeAppend([first], second);
    EncodeAppend([], first);
    assert [] + [first] == [first] && [first] + [second] == [first, second];
    assert FlatLine([span]) == [rect.left, rect.right] + FlatLine([]);
  }

  // ---- Moving a region --------------------------------------------------------------------------

  /** The rows of a region moved by (dx, dy). */
  function MovedLine(line: Line, dx: int): Line {
    seq(|line|, i requires 0 <= i < |line| => Range(line[i].start + dx, line[i].end + dx))
  }

  function MovedRows(rows: seq<Row>, dx: int, dy: int): seq<Row> {
    seq(|rows|, i requires 0 <= i < |rows| => Row(rows[i].y + dy, MovedLine(rows[i].line, dx)))
  }

  /** The same rows as they are stored, each coordinate cut to 16 bits. */
  function StoredMovedLine(line: Line, dx: int): Line {
    seq(|line|, i requires 0 <= i < |line| => Range(ToInt16(line[i].start + dx), ToInt16(line[i].end + dx)))
  }

  function StoredMovedRows(rows: seq<Row>, dx: int, dy: int): seq<Row> {
    seq(|rows|, i requires 0 <= i < |rows| => Row(ToInt16(rows[i].y + dy), StoredMovedLine(rows[i].line, dx)))
  }

  /** Each coordinate as it is stored after a move: the moved one modulo 65536. */
  lemma StoredCoordinates(rows: seq<Row>, dx: int, dy: int, i: nat, j: nat)
    requires i < |rows| && j < |rows[i].line|
    ensures var stored := StoredMovedRows(rows, dx, dy);
            && |stored| == |rows| && |stored[i].line| == |rows[i].line|
            && stored[i].y == (rows[i].y + dy + 32768) % 65536 - 32768
            && stored[i].line[j].start == (rows[i].line[j].start + dx + 32768) % 65536 - 32768
            && stored[i].line[j].end == (rows[i].line[j].end + dx + 32768) % 65536 - 32768
  {
  }

  /** Every coordinate of the stream still fits 16 bits after the move. */
  ghost predicate MoveFits(rows: seq<Row>, dx: int, dy: int) {
    forall i :: 0 <= i < |rows| ==> IsInt16(rows[i].y + dy) && LineMoveFits(rows[i].line, dx)
  }

  ghost predicate LineMoveFits(line: Line, dx: int) {
    forall i :: 0 <= i < |line| ==> IsInt16(line[i].start + dx) && IsInt16(line[i].end + dx)
  }

  ghost predicate RectMoveFits(r: Rect, dx: int, dy: int) {
    IsInt16(r.top + dy) && IsInt16(r.left + dx) && IsInt16(r.bottom + dy) && IsInt16(r.right + dx)
  }

  /** `output` holds the pixels of `data` moved by (dx, dy). */
  ghost predicate IsMoved(output: seq<int>, data: seq<int>, dx: int, dy: int) {
    forall x, y :: Contains(output, x, y) <==> Contains(data, x - dx, y - dy)
  }

  method OffsetLine(line: Line, offset: int) returns (output: Line)
    ensures output == StoredMovedLine(line, offset)
  {
    output := [];
    for i := 0 to |line|
      invariant output == StoredMovedLine(line, offset)[..i]
    {
      var range := line[i];
      output := output + [Range(ToInt16(range.start + offset), ToInt16(range.end + offset))];
    }
  }

  method Offset(r1: Region, dx: int, dy: int) returns (output: Region)
    requires Readable(r1.data)
    ensures output.rect == OffsetRect(r1.rect, dx, dy)
    ensures output.data == Encode(StoredMovedRows(Decode(r1.data), dx, dy))
    ensures MoveFits(Decode(r1.data), dx, dy) ==> Readable(output.data) && IsMoved(output.data, r1.data, dx, dy)
    ensures Canonical(r1.data) && MoveFits(Decode(r1.data), dx, dy) ==> Canonical(output.data)
    ensures Canonical(r1.data) ==> (IsMoved(output.data, r1.data, dx, dy) <==> MoveFits(Decode(r1.data), dx, dy))
    ensures MoveFits(Decode(r1.data), dx, dy) && RectMoveFits(r1.rect, dx, dy) && Encloses(r1.rect, r1.data) ==>
              Encloses(output.rect, output.data)
  {
    hide *;
    var data := OffsetStream(r1.data, dx, dy);
    output := Region(OffsetRect(r1.rect, dx, dy), data);
    if MoveFits(Decode(r1.data), dx, dy) {
      MovedMeaning(r1.data, data, dx, dy);
      if RectMoveFits(r1.rect, dx, dy) && Encloses(r1.rect, r1.data) {
        MovedEncloses(r1.rect, r1.data, data, dx, dy);
      }
    } else if Canonical(r1.data) {
      WrappedMoveFails(r1.data, data, dx, dy);
    }
  }

  method OffsetStream(data: seq<int>, dx: int, dy: int) returns (output: seq<int>)
    requires Readable(data)
    ensures output == Encode(StoredMovedRows(Decode(data), dx, dy))
  {
    hide *;
    ghost var rows := Decode(data);
    ghost var moved := StoredMovedRows(rows, dx, dy);
    ghost var k: nat := 0;
    output := [];
    var p: nat := 0;
    StreamStarts(data);
    NothingMoved(rows, dx, dy);
    while p < |data|
      invariant At(data, p, rows, k)
      invariant k <= |rows| == |moved| && p <= |data|
      invariant output == Encode(moved[..k])
      decreases |rows| - k
    {
      AtRow(data, p, rows, k);
      var y, count := data[p], data[p + 1];
      p := p + 2;
      var line := OffsetLine(ReadRanges(data[p..p + count]), dx);
      p := p + count;
      output := output + ([ToInt16(y + dy)] + [count] + FlatLine(line));
      MovedRowAppends(rows, k, dx, dy);
      AtRow(data, p, rows, k + 1);
      k := k + 1;
    }
    AtRow(data, p, rows, k);
    assert moved[..k] == moved;
  }

  lemma NothingEncoded()
    ensures Encode([]) == []
  {
  }

  lemma NothingMoved(rows: seq<Row>, dx: int, dy: int)
    ensures |StoredMovedRows(rows, dx, dy)| == |rows|
    ensures Encode(StoredMovedRows(rows, dx, dy)[..0]) == []
  {
  }

  lemma MovedRowAppends(rows: seq<Row>, k: nat, dx: int, dy: int)
    requires k < |rows|
    ensures |StoredMovedRows(rows, dx, dy)| == |rows|
    ensures var moved, line := StoredMovedRows(rows, dx, dy), rows[k].line;
            Encode(moved[..k + 1])
            == Encode(moved[..k])
               + ([ToInt16(rows[k].y + dy)] + [2 * |line|] + FlatLine(StoredMovedLine(line, dx)))
  {
    hide Encode, FlatLine, ToInt16;
    var moved := StoredMovedRows(rows, dx, dy);
    assert moved[..k + 1] == moved[..k] + [moved[k]];
    EncodeAppend(moved[..k], moved[k]);
  }

  /** Where nothing is cut, the stored rows are the moved ones. */
  lemma StoredIsMoved(rows: seq<Row>, dx: int, dy: int)
    requires MoveFits(rows, dx, dy)
    ensures StoredMovedRows(rows, dx, dy) == MovedRows(rows, dx, dy)
  {
    hide ToInt16;
    forall i | 0 <= i < |rows| ensures StoredMovedLine(rows[i].line, dx) == MovedLine(rows[i].line, dx) {}
  }

  lemma MovedCovers(line: Line, dx: int, x: int)
    ensures Covers(MovedLine(line, dx), x) <==> Covers(line, x - dx)
  {
    var moved := MovedLine(line, dx);
    if Covers(line, x - dx) {
      var i :| 0 <= i < |line| && InRange(line[i], x - dx);
      assert InRange(moved[i], x);
    }
    if Covers(moved, x) {
      var i :| 0 <= i < |moved| && InRange(moved[i], x);
      assert InRange(line[i], x - dx);
    }
  }

  lemma {:induction false} MovedLineAt(rows: seq<Row>, dx: int, dy: int, y: int)
    ensures LineAt(MovedRows(rows, dx, dy), y) == MovedLine(LineAt(rows, y - dy), dx)
  {
    if rows != [] {
      var n := |rows| - 1;
      MovedLineAt(rows[..n], dx, dy, y);
      assert MovedRows(rows, dx, dy)[..n] == MovedRows(rows[..n], dx, dy);
    }
  }

  lemma MovedInOrder(rows: seq<Row>, dx: int, dy: int)
    requires MoveFits(rows, dx, dy) && RowsInOrder(rows)
    ensures RowsInOrder(MovedRows(rows, dx, dy))
  {
    forall i | 0 <= i < |rows| ensures Sorted(MovedLine(rows[i].line, dx)) {
      MovedLineSorted(rows[i].line, dx);
    }
  }

  lemma MovedLineSorted(line: Line, dx: int)
    requires LineMoveFits(line, dx)
    ensures Sorted(line) ==> Sorted(MovedLine(line, dx))
    ensures Strict(line) ==> Strict(MovedLine(line, dx))
  {
  }

  lemma MovedNoIdle(rows: seq<Row>, dx: int, dy: int)
    requires MoveFits(rows, dx, dy) && NoIdleRow(rows)
    ensures NoIdleRow(MovedRows(rows, dx, dy))
  {
    hide Strict, Sorted;
    var moved := MovedRows(rows, dx, dy);
    forall i | 0 <= i < |rows| ensures Strict(MovedLine(rows[i].line, dx)) {
      MovedLineSorted(rows[i].line, dx);
    }
    forall i {:trigger LineBefore(moved, i)} | 0 <= i < |moved| ensures moved[i].line != LineBefore(moved, i) {
      assert rows[i].line != LineBefore(rows, i);
      assert LineBefore(moved, i) == MovedLine(LineBefore(rows, i), dx);
      MovedLineInjective(rows[i].line, LineBefore(rows, i), dx);
    }
  }

  lemma MovedLineInjective(a: Line, b: Line, dx: int)
    ensures MovedLine(a, dx) == MovedLine(b, dx) ==> a == b
  {
    var a', b' := MovedLine(a, dx), MovedLine(b, dx);
    if a' == b' {
      assert |a| == |a'| == |b|;
      forall i | 0 <= i < |a| ensures a[i] == b[i] {
        assert a'[i] == b'[i];
      }
    }
  }

  lemma MovedMeaning(data: seq<int>, output: seq<int>, dx: int, dy: int)
    requires MoveFits(Decode(data), dx, dy)
    requires Readable(data) && output == Encode(StoredMovedRows(Decode(data), dx, dy))
    ensures Readable(output) && IsMoved(output, data, dx, dy)
    ensures Canonical(data) ==> Canonical(output)
  {
    hide Encode, Decode, LineAt, Covers, NoIdleRow, MoveFits, RowsInOrder;
    var rows := Decode(data);
    StoredIsMoved(rows, dx, dy);
    DecodeEncode(MovedRows(rows, dx, dy));
    MovedInOrder(rows, dx, dy);
    if Canonical(data) {
      MovedNoIdle(rows, dx, dy);
    }
    forall x, y ensures Contains(output, x, y) <==> Contains(data, x - dx, y - dy) {
      MovedLineAt(rows, dx, dy, y);
      MovedCovers(LineAt(rows, y - dy), dx, x);
    }
  }

  lemma MovedEncloses(rect: Rect, data: seq<int>, output: seq<int>, dx: int, dy: int)
    requires IsMoved(output, data, dx, dy) && RectMoveFits(rect, dx, dy) && Encloses(rect, data)
    ensures Encloses(OffsetRect(rect, dx, dy), output)
  {
    hide Contains, ToInt16;
  }

  /** A stream of 16-bit coordinates that ends with an empty row shows nothing past the plane. */
  lemma NothingOffPlane(rows: seq<Row>, dx: int, dy: int, x: int, y: int)
    requires rows != [] ==> rows[|rows| - 1].line == []
    requires Covers(LineAt(StoredMovedRows(rows, dx, dy), y), x)
    ensures INT16_MIN <= x < INT16_MAX && INT16_MIN <= y < INT16_MAX
  {
    hide ToInt16;
    var stored := StoredMovedRows(rows, dx, dy);
    var i := LineAtSource(stored, y);
    assert stored[i].line == StoredMovedLine(rows[i].line, dx);
    var n := |stored| - 1;
    assert stored[n].line == [];
    assert stored[n].y <= INT16_MAX;
  }

  lemma ShownOnPlane(data: seq<int>, output: seq<int>, dx: int, dy: int, x: int, y: int)
    requires Readable(data) && output == Encode(StoredMovedRows(Decode(data), dx, dy))
    requires Contains(output, x, y)
    ensures INT16_MIN <= x < INT16_MAX && INT16_MIN <= y < INT16_MAX
  {
    hide Encode, Decode, LineAt, Covers, RowsInOrder;
    DecodeEncode(StoredMovedRows(Decode(data), dx, dy));
    NothingOffPlane(Decode(data), dx, dy, x, y);
  }

  /** Some pixel of a canonical region leaves the plane when a coordinate does. */
  lemma WrappedMoveFails(data: seq<int>, output: seq<int>, dx: int, dy: int)
    requires Readable(data) && Canonical(data) && !MoveFits(Decode(data), dx, dy)
    requires output == Encode(StoredMovedRows(Decode(data), dx, dy))
    ensures !IsMoved(output, data, dx, dy)
  {
    hide *;
    var x, y := LeavesPlane(data, dx, dy);
    if IsMoved(output, data, dx, dy) {
      MovedPixel(data, output, dx, dy, x, y);
      ShownOnPlane(data, output, dx, dy, x + dx, y + dy);
    }
  }

  lemma MovedPixel(data: seq<int>, output: seq<int>, dx: int, dy: int, x: int, y: int)
    requires IsMoved(output, data, dx, dy) && Contains(data, x, y)
    ensures Contains(output, x + dx, y + dy)
  {
    hide Contains;
    assert Contains(data, x + dx - dx, y + dy - dy);
  }

  lemma EmptyStream()
    ensures Decode([]) == []
  {
  }

  lemma LeavesPlane(data: seq<int>, dx: int, dy: int) returns (x: int, y: int)
    requires Canonical(data) && !MoveFits(Decode(data), dx, dy)
    ensures Contains(data, x, y)
    ensures !(INT16_MIN <= x + dx < INT16_MAX && INT16_MIN <= y + dy < INT16_MAX)
  {
    hide Contains, Encode, Decode, Sorted, Covers, LineAt;
    var rows := Decode(data);
    var i :| 0 <= i < |rows| && !(IsInt16(rows[i].y + dy) && LineMoveFits(rows[i].line, dx));
    assert data != [] by { EmptyStream(); }
    if IsInt16(rows[i].y + dy) {
      x := ColumnLeaves(data, dx, i);
      y := rows[i].y;
    } else {
      x, y := RowLeaves(data, dy, i);
    }
  }

  lemma RowLeaves(data: seq<int>, dy: int, i: nat) returns (x: int, y: int)
    requires Canonical(data) && data != [] && i < |Decode(data)| && !IsInt16(Decode(data)[i].y + dy)
    ensures Contains(data, x, y) && !(INT16_MIN <= y + dy < INT16_MAX)
  {
    hide Contains, Encode, Decode, Sorted, Strict, Covers, LineAt;
    var rows := Decode(data);
    FirstRowFull(data);
    if rows[i].y + dy < INT16_MIN {
      RowContains(data, 0);
      x, y := rows[0].line[0].start, rows[0].y;
    } else {
      FullAboveEnd(data);
      y := EndY(data) - 1;
      x :| Contains(data, x, y);
    }
  }

  lemma ColumnLeaves(data: seq<int>, dx: int, i: nat) returns (x: int)
    requires Canonical(data) && i < |Decode(data)| && !LineMoveFits(Decode(data)[i].line, dx)
    ensures Contains(data, x, Decode(data)[i].y) && !(INT16_MIN <= x + dx < INT16_MAX)
  {
    hide Contains, Encode, Decode, Sorted, Strict, Covers, LineAt;
    var line := Decode(data)[i].line;
    var j :| 0 <= j < |line| && !(IsInt16(line[j].start + dx) && IsInt16(line[j].end + dx));
    StrictExtremes(line, j);
    RowContains(data, i);
    x := if line[j].start + dx < INT16_MIN then line[0].start else line[|line| - 1].end - 1;
  }

  lemma StrictExtremes(line: Line, j: nat)
    requires Strict(line) && j < |line|
    ensures line[0].start <= line[j].start < line[j].end <= line[|line| - 1].end
  {
  }

  // ---- Laws of the streams ----------------------------------------------------------------------

  /** `out` is a canonical stream for the pixels `op` selects from `a` and `b`, as `RegionOp` builds. */
  ghost predicate IsResult(op: Op, a: seq<int>, b: seq<int>, out: seq<int>) {
    Canonical(out) && forall x, y :: Contains(out, x, y) <==> Holds(op, Contains(a, x, y), Contains(b, x, y))
  }

  /** `a` united with `b` and `b` united with `a` are the same stream; so with intersections. */
  lemma Commutes(op: Op, a: seq<int>, b: seq<int>, ab: seq<int>, ba: seq<int>)
    requires op != OpSubtract
    requires IsResult(op, a, b, ab) && IsResult(op, b, a, ba)
    ensures ab == ba
  {
    CanonicalUnique(ab, ba);
  }

  lemma Associates(op: Op, a: seq<int>, b: seq<int>, c: seq<int>,
                   ab: seq<int>, abThenC: seq<int>, bc: seq<int>, aThenBc: seq<int>)
    requires op != OpSubtract
    requires IsResult(op, a, b, ab) && IsResult(op, ab, c, abThenC)
    requires IsResult(op, b, c, bc) && IsResult(op, a, bc, aThenBc)
    ensures abThenC == aThenBc
  {
    CanonicalUnique(abThenC, aThenBc);
  }

  /** Intersecting is subtracting what the subtraction leaves. */
  lemma IntersectIsDoubleSubtract(a: seq<int>, b: seq<int>, both: seq<int>, rest: seq<int>, back: seq<int>)
    requires IsResult(OpIntersect, a, b, both)
    requires IsResult(OpSubtract, a, b, rest) && IsResult(OpSubtract, a, rest, back)
    ensures both == back
  {
    CanonicalUnique(both, back);
  }

  /** A region splits into the part inside another and the part outside, and comes back whole. */
  lemma SplitAndRejoin(a: seq<int>, b: seq<int>, inside: seq<int>, outside: seq<int>, whole: seq<int>)
    requires Canonical(a)
    requires IsResult(OpIntersect, a, b, inside) && IsResult(OpSubtract, a, b, outside)
    requires IsResult(OpUnion, inside, outside, whole)
    ensures whole == a
  {
    CanonicalUnique(whole, a);
  }
}
