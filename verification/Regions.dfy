/** Regions (`emu/graphics/region.cc`): sets of pixels held as a flat stream of integers.
    Each row of the stream is `y, count, start, end, start, end, ...` and stays in force until the next one. */
module Regions {
  import opened Geometry
  import opened Scanlines

  datatype Region = Region(rect: Rect, data: seq<int>)

  const EMPTY_REGION := Region(ZERO_RECT, [])

  datatype Row = Row(y: int, line: Line)

  // ---- The stream -------------------------------------------------------------------------------

  function FlatLine(line: Line): (s: seq<int>)
    ensures |s| == 2 * |line|
  {
    if line == [] then [] else [line[0].start, line[0].end] + FlatLine(line[1..])
  }

  /** The ranges stored in an even number of integers. */
  function ReadRanges(s: seq<int>): (line: Line)
    requires |s| % 2 == 0
    ensures 2 * |line| == |s|
  {
    if s == [] then [] else [Range(s[0], s[1])] + ReadRanges(s[2..])
  }

  function EncodeRow(row: Row): seq<int> {
    [row.y, 2 * |row.line|] + FlatLine(row.line)
  }

  function Encode(rows: seq<Row>): seq<int> {
    if rows == [] then [] else EncodeRow(rows[0]) + Encode(rows[1..])
  }

  function Decode(data: seq<int>): seq<Row>
    decreases |data|
  {
    if |data| < 2 || data[1] < 0 || data[1] % 2 != 0 || 2 + data[1] > |data| then []
    else [Row(data[0], ReadRanges(data[2..2 + data[1]]))] + Decode(data[2 + data[1]..])
  }

  lemma {:induction false} ReadFlatLine(line: Line)
    ensures ReadRanges(FlatLine(line)) == line
  {
    if line != [] {
      ReadFlatLine(line[1..]);
      assert FlatLine(line)[2..] == FlatLine(line[1..]);
    }
  }

  lemma {:induction false} DecodeEncode(rows: seq<Row>)
    ensures Decode(Encode(rows)) == rows
  {
    if rows != [] {
      ReadFirstRow(Encode(rows), rows);
      DecodeEncode(rows[1..]);
    }
  }

  /** What a reader finds at the head of a stream. */
  lemma ReadFirstRow(data: seq<int>, rows: seq<Row>)
    requires rows != [] && data == Encode(rows)
    ensures var n := 2 * |rows[0].line|;
            |data| >= 2 + n && data[0] == rows[0].y && data[1] == n
            && ReadRanges(data[2..2 + n]) == rows[0].line && data[2 + n..] == Encode(rows[1..])
  {
    ReadFlatLine(rows[0].line);
    assert data[2..2 + 2 * |rows[0].line|] == FlatLine(rows[0].line);
  }

  lemma {:induction false} EncodeAppend(rows: seq<Row>, row: Row)
    ensures Encode(rows + [row]) == Encode(rows) + EncodeRow(row)
  {
    if rows == [] {
      assert Encode([row]) == EncodeRow(row) + Encode([]);
    } else {
      EncodeAppend(rows[1..], row);
      assert (rows + [row])[1..] == rows[1..] + [row];
    }
  }

  // ---- Meaning ----------------------------------------------------------------------------------

  /** The line of the last row at or above `y`. */
  ghost function LineAt(rows: seq<Row>, y: int): Line {
    if rows == [] then [] else
      var last := rows[|rows| - 1];
      if last.y <= y then last.line else LineAt(rows[..|rows| - 1], y)
  }

  /** Pixel (x, y) belongs to the region. */
  ghost predicate Contains(data: seq<int>, x: int, y: int) {
    Covers(LineAt(Decode(data), y), x)
  }

  ghost predicate RowsInOrder(rows: seq<Row>) {
    && (forall i, j :: 0 <= i < j < |rows| ==> rows[i].y <= rows[j].y)
    && (forall i :: 0 <= i < |rows| ==> IsInt16(rows[i].y) && Sorted(rows[i].line))
  }

  /** What the region operations demand of a stream: rows and ranges in order, and an empty last row. */
  ghost predicate Readable(data: seq<int>) {
    var rows := Decode(data);
    data == Encode(rows) && RowsInOrder(rows) && (rows != [] ==> rows[|rows| - 1].line == [])
  }

  /** Every row changes something. */
  ghost predicate NoIdleRow(rows: seq<Row>) {
    StrictRows(rows) && NoRepeat(rows)
  }

  ghost predicate StrictRows(rows: seq<Row>) {
    && (forall i, j :: 0 <= i < j < |rows| ==> rows[i].y < rows[j].y)
    && (forall i :: 0 <= i < |rows| ==> Strict(rows[i].line))
  }

  /** No row repeats the line above it. */
  ghost predicate NoRepeat(rows: seq<Row>) {
    forall i {:trigger LineBefore(rows, i)} :: 0 <= i < |rows| ==> rows[i].line != LineBefore(rows, i)
  }

  /** The line in force just above row `i`. */
  ghost function LineBefore(rows: seq<Row>, i: int): Line
    requires 0 <= i <= |rows|
  {
    if i == 0 then [] else rows[i - 1].line
  }

  /** The `y` of the last of the first `k` rows. */
  ghost function LastY(rows: seq<Row>, k: nat): int
    requires k <= |rows|
  {
    if k == 0 then INT16_MIN else rows[k - 1].y
  }

  /** Where the region ends: the `y` of its last row. */
  ghost function EndY(data: seq<int>): int {
    LastY(Decode(data), |Decode(data)|)
  }

  /** The normal form of a region. */
  ghost predicate Canonical(data: seq<int>) {
    Readable(data) && NoIdleRow(Decode(data))
  }

  ghost predicate Encloses(rect: Rect, data: seq<int>) {
    forall x, y :: Contains(data, x, y) ==> PointInRect(x, y, rect)
  }

  /** The rect is tight on its top, left and right sides. */
  ghost predicate Attains(rect: Rect, data: seq<int>) {
    RowHolds(data, rect.top) && ColumnHolds(data, rect.left) && ColumnHolds(data, rect.right - 1)
  }

  ghost predicate RowHolds(data: seq<int>, y: int) {
    exists x :: Contains(data, x, y)
  }

  ghost predicate ColumnHolds(data: seq<int>, x: int) {
    exists y :: Contains(data, x, y)
  }

  lemma {:induction false} LineAtPrefix(rows: seq<Row>, k: nat, y: int)
    requires k <= |rows|
    requires forall i :: k <= i < |rows| ==> y < rows[i].y
    ensures LineAt(rows, y) == LineAt(rows[..k], y)
  {
    if k == |rows| {
      assert rows[..k] == rows;
    } else {
      LineAtPrefix(rows[..|rows| - 1], k, y);
      assert rows[..|rows| - 1][..k] == rows[..k];
    }
  }

  lemma LineAtAppend(rows: seq<Row>, row: Row, y: int)
    ensures LineAt(rows + [row], y) == if row.y <= y then row.line else LineAt(rows, y)
  {
    assert (rows + [row])[..|rows|] == rows;
  }

  /** Row `i` is in force from its own `y` up to the next. */
  lemma LineAtRow(rows: seq<Row>, i: nat, y: int)
    requires i < |rows| && rows[i].y <= y
    requires forall j :: i < j < |rows| ==> y < rows[j].y
    ensures LineAt(rows, y) == rows[i].line
  {
    LineAtPrefix(rows, i + 1, y);
    assert rows[..i + 1] == rows[..i] + [rows[i]];
    LineAtAppend(rows[..i], rows[i], y);
  }

  /** Whatever line is in force comes from some row at or above `y`. */
  lemma {:induction false} LineAtSource(rows: seq<Row>, y: int) returns (i: nat)
    requires LineAt(rows, y) != []
    ensures i < |rows| && rows[i].y <= y && rows[i].line == LineAt(rows, y)
  {
    if rows[|rows| - 1].y <= y {
      i := |rows| - 1;
    } else {
      i := LineAtSource(rows[..|rows| - 1], y);
    }
  }

  /** Which pixels a list of rows shows: those in a range of the last row at or above them. */
  lemma LineInForce(rows: seq<Row>, x: int, y: int)
    requires RowsInOrder(rows)
    ensures Covers(LineAt(rows, y), x) <==>
            exists i, j :: 0 <= i < |rows| && 0 <= j < |rows[i].line|
                           && rows[i].y <= y && (i + 1 < |rows| ==> y < rows[i + 1].y)
                           && rows[i].line[j].start <= x < rows[i].line[j].end
  {
    hide LineAt, Sorted;
    if Covers(LineAt(rows, y), x) {
      var i := LastRow(rows, y);
      var j :| 0 <= j < |rows[i].line| && InRange(rows[i].line[j], x);
    }
    if i, j :| 0 <= i < |rows| && 0 <= j < |rows[i].line|
               && rows[i].y <= y && (i + 1 < |rows| ==> y < rows[i + 1].y)
               && rows[i].line[j].start <= x < rows[i].line[j].end {
      LineAtRow(rows, i, y);
      assert InRange(rows[i].line[j], x);
    }
  }

  /** The last row at or above `y`. */
  lemma {:induction false} LastRow(rows: seq<Row>, y: int) returns (i: nat)
    requires RowsInOrder(rows) && LineAt(rows, y) != []
    ensures i < |rows| && rows[i].y <= y && (i + 1 < |rows| ==> y < rows[i + 1].y)
    ensures rows[i].line == LineAt(rows, y)
  {
    var n := |rows| - 1;
    if rows[n].y <= y {
      i := n;
    } else {
      i := LastRow(rows[..n], y);
    }
  }

  /** The stream of some rows: each is its `y`, twice the number of its ranges, and their starts and ends. */
  lemma StreamLayout(rows: seq<Row>, i: nat)
    requires i < |rows|
    ensures |Encode(rows[..0])| == 0
    ensures var data, p, line := Encode(rows), |Encode(rows[..i])|, rows[i].line;
            && |Encode(rows[..i + 1])| == p + 2 + 2 * |line| <= |data|
            && data[p] == rows[i].y && data[p + 1] == 2 * |line|
            && forall j :: 0 <= j < |line| ==>
                 data[p + 2 + 2 * j] == line[j].start && data[p + 3 + 2 * j] == line[j].end
  {
    hide *;
    EncodeAround(rows, i);
    EncodeAppend(rows[..i], rows[i]);
    assert rows[..i + 1] == rows[..i] + [rows[i]];
    RowLayout(rows[i]);
    var data, before, row := Encode(rows), Encode(rows[..i]), EncodeRow(rows[i]);
    forall k | 0 <= k < |row| ensures data[|before| + k] == row[k] {}
    forall j | 0 <= j < |rows[i].line|
      ensures data[|before| + 2 + 2 * j] == rows[i].line[j].start && data[|before| + 3 + 2 * j] == rows[i].line[j].end
    {
      assert data[|before| + (2 + 2 * j)] == row[2 + 2 * j] && data[|before| + (3 + 2 * j)] == row[3 + 2 * j];
    }
  }

  lemma RowLayout(row: Row)
    ensures var s := EncodeRow(row);
            && |s| == 2 + 2 * |row.line| && s[0] == row.y && s[1] == 2 * |row.line|
            && forall j :: 0 <= j < |row.line| ==> s[2 + 2 * j] == row.line[j].start && s[3 + 2 * j] == row.line[j].end
  {
    hide FlatLine;
    FlatLineAt(row.line);
    forall j | 0 <= j < |row.line|
      ensures EncodeRow(row)[2 + 2 * j] == row.line[j].start && EncodeRow(row)[3 + 2 * j] == row.line[j].end
    {
      assert EncodeRow(row)[2 + 2 * j] == FlatLine(row.line)[2 * j];
      assert EncodeRow(row)[3 + 2 * j] == FlatLine(row.line)[2 * j + 1];
    }
  }

  /** A row's integers stand after those of the rows before it. */
  lemma {:induction false} EncodeAround(rows: seq<Row>, i: nat)
    requires i < |rows|
    ensures Encode(rows) == Encode(rows[..i]) + EncodeRow(rows[i]) + Encode(rows[i + 1..])
    ensures Encode(rows[..0]) == []
  {
    hide EncodeRow;
    if i > 0 {
      EncodeAround(rows[1..], i - 1);
      assert rows[1..][..i - 1] == rows[..i][1..] && rows[1..][i..] == rows[i + 1..];
    } else {
      assert rows[..0] == [];
    }
  }

  lemma {:induction false} FlatLineAt(line: Line)
    ensures forall j :: 0 <= j < |line| ==>
              FlatLine(line)[2 * j] == line[j].start && FlatLine(line)[2 * j + 1] == line[j].end
  {
    if line != [] {
      FlatLineAt(line[1..]);
      forall j | 0 <= j < |line|
        ensures FlatLine(line)[2 * j] == line[j].start && FlatLine(line)[2 * j + 1] == line[j].end
      {
        if j > 0 {
          assert line[1..][j - 1] == line[j];
          assert FlatLine(line)[2 * j] == FlatLine(line[1..])[2 * (j - 1)];
        }
      }
    }
  }

  // ---- The normal form is unique ----------------------------------------------------------------

  lemma LineAtStrict(rows: seq<Row>, y: int)
    requires NoIdleRow(rows)
    ensures Strict(LineAt(rows, y))
  {
    if LineAt(rows, y) != [] {
      var i := LineAtSource(rows, y);
    }
  }

  lemma LastLineDiffers(rows: seq<Row>)
    requires NoIdleRow(rows) && rows != []
    ensures var last := rows[|rows| - 1];
            LineAt(rows, last.y - 1) == LineBefore(rows, |rows| - 1) != last.line
  {
    hide Strict;
    var n := |rows| - 1;
    var init := rows[..n];
    assert rows == init + [rows[n]];
    assert LineBefore(rows, n) != rows[n].line;
    assert n > 0 ==> rows[n - 1].y < rows[n].y;
    hide NoIdleRow;
    LineAtAppend(init, rows[n], rows[n].y - 1);
    if n > 0 {
      LineAtRow(init, n - 1, rows[n].y - 1);
    }
  }

  lemma SameLastRow(a: seq<Row>, b: seq<Row>)
    requires NoIdleRow(a) && NoIdleRow(b) && b != []
    requires forall y :: LineAt(a, y) == LineAt(b, y)
    ensures a != [] && b[|b| - 1].y <= a[|a| - 1].y
  {
    var last := b[|b| - 1];
    LastLineDiffers(b);
    assert LineAt(b, last.y) == last.line;
  }

  lemma {:induction false} RowsUnique(a: seq<Row>, b: seq<Row>)
    requires NoIdleRow(a) && NoIdleRow(b)
    requires forall y :: LineAt(a, y) == LineAt(b, y)
    ensures a == b
  {
    if a == [] {
      if b != [] { SameLastRow(a, b); }
    } else {
      SameLastRow(b, a);
      SameLastRow(a, b);
      var a', b' := a[..|a| - 1], b[..|b| - 1];
      var la, lb := a[|a| - 1], b[|b| - 1];
      NoIdlePrefix(a);
      NoIdlePrefix(b);
      assert la.line == LineAt(a, la.y) && lb.line == LineAt(b, la.y);
      forall y ensures LineAt(a', y) == LineAt(b', y) {
        LineAtInit(a, y);
        LineAtInit(b, y);
      }
      hide NoIdleRow, LineAt;
      RowsUnique(a', b');
      assert a == a' + [la] && b == b' + [lb];
    }
  }

  /** Without its last row, a region keeps showing the line above that row. */
  lemma LineAtInit(rows: seq<Row>, y: int)
    requires NoIdleRow(rows) && rows != []
    ensures var last := rows[|rows| - 1];
            LineAt(rows[..|rows| - 1], y) == LineAt(rows, Min(y, last.y - 1))
  {
    var n := |rows| - 1;
    assert n > 0 ==> rows[n - 1].y < rows[n].y;
    var init := rows[..n];
    assert rows == init + [rows[n]];
    hide NoIdleRow;
    LineAtAppend(init, rows[n], Min(y, rows[n].y - 1));
    if n > 0 && y >= rows[n].y {
      LineAtRow(init, n - 1, y);
      LineAtRow(init, n - 1, rows[n].y - 1);
    }
  }

  lemma NoIdlePrefix(rows: seq<Row>)
    requires NoIdleRow(rows) && rows != []
    ensures NoIdleRow(rows[..|rows| - 1])
  {
    var init := rows[..|rows| - 1];
    forall i | 0 <= i < |init| ensures init[i].line != LineBefore(init, i) {
      assert LineBefore(init, i) == LineBefore(rows, i);
    }
  }

  /** Two canonical regions with the same pixels are the same stream. */
  lemma CanonicalUnique(a: seq<int>, b: seq<int>)
    requires Canonical(a) && Canonical(b)
    requires forall x, y :: Contains(a, x, y) <==> Contains(b, x, y)
    ensures a == b
  {
    var rows, rows' := Decode(a), Decode(b);
    forall y ensures LineAt(rows, y) == LineAt(rows', y) {
      LineAtStrict(rows, y);
      LineAtStrict(rows', y);
      forall x ensures Covers(LineAt(rows, y), x) <==> Covers(LineAt(rows', y), x) {
        assert Contains(a, x, y) <==> Contains(b, x, y);
      }
      StrictUnique(LineAt(rows, y), LineAt(rows', y));
    }
    RowsUnique(rows, rows');
  }

  // ---- Where a region ends ----------------------------------------------------------------------

  /** Nothing lies at or below the last row. */
  lemma NothingAfterEnd(data: seq<int>, x: int, y: int)
    requires Readable(data) && EndY(data) <= y
    ensures !Contains(data, x, y)
  {
    var rows := Decode(data);
    if rows != [] {
      assert LineAt(rows, y) == rows[|rows| - 1].line;
    }
  }

  /** The row just above the last one of a canonical region is not empty. */
  lemma FullAboveEnd(data: seq<int>)
    requires Canonical(data) && data != []
    ensures INT16_MIN < EndY(data) && RowHolds(data, EndY(data) - 1)
  {
    var rows := Decode(data);
    assert rows != [] by {
      assert data == Encode(rows);
    }
    var n := |rows| - 1;
    LastLineDiffers(rows);
    assert LineBefore(rows, n) == LineAt(rows, EndY(data) - 1) != [];
    assert n > 0 && rows[n - 1].y < rows[n].y;
    LineAtStrict(rows, EndY(data) - 1);
    FirstPixel(LineAt(rows, EndY(data) - 1));
    assert Contains(data, LineAt(rows, EndY(data) - 1)[0].start, EndY(data) - 1);
  }

  // ---- Counts in 16 bits ------------------------------------------------------------------------

  /** A row as it is stored: its count is cut to 16 bits. */
  function StoredRow(row: Row): seq<int> {
    [row.y, ToInt16(2 * |row.line|)] + FlatLine(row.line)
  }

  function Stored(rows: seq<Row>): seq<int> {
    if rows == [] then [] else StoredRow(rows[0]) + Stored(rows[1..])
  }

  /** The stored stream is the intended one exactly when no row has more than 16383 ranges. */
  lemma {:induction false} StoredIsIntended(rows: seq<Row>)
    ensures Stored(rows) == Encode(rows) <==> forall i :: 0 <= i < |rows| ==> |rows[i].line| <= 16383
  {
    if rows != [] {
      StoredIsIntended(rows[1..]);
      CountStored(rows[0]);
      var n := |StoredRow(rows[0])|;
      assert Stored(rows)[..n] == StoredRow(rows[0]) && Stored(rows)[n..] == Stored(rows[1..]);
      assert Encode(rows)[..n] == EncodeRow(rows[0]) && Encode(rows)[n..] == Encode(rows[1..]);
      assert rows == [rows[0]] + rows[1..];
    }
  }

  lemma CountStored(row: Row)
    ensures |StoredRow(row)| == |EncodeRow(row)|
    ensures StoredRow(row) == EncodeRow(row) <==> |row.line| <= 16383
  {
    var n := 2 * |row.line|;
    assert StoredRow(row)[1] == ToInt16(n) && EncodeRow(row)[1] == n;
    assert IsInt16(ToInt16(n));
  }

  /** The greatest number of ranges in a row. */
  ghost function Longest(rows: seq<Row>): nat {
    if rows == [] then 0 else
      var n := |rows| - 1;
      Max(Longest(rows[..n]), |rows[n].line|)
  }

  lemma {:induction false} LongestIs(rows: seq<Row>, m: nat)
    ensures Longest(rows) <= m <==> forall i :: 0 <= i < |rows| ==> |rows[i].line| <= m
  {
    if rows != [] {
      var n := |rows| - 1;
      LongestIs(rows[..n], m);
      assert rows == rows[..n] + [rows[n]];
    }
  }

  /** Every other pixel of a row, from column zero on. */
  function Comb(n: nat): (line: Line)
    ensures |line| == n && forall i :: 0 <= i < n ==> line[i] == Range(2 * i, 2 * i + 1)
  {
    seq(n, i => Range(2 * i, 2 * i + 1))
  }

  /** A stretch of a comb is in normal form. */
  lemma CombIsStrict(n: nat, from: nat, to: nat)
    requires from <= to <= n <= 16384
    ensures Strict(Comb(n)[from..to])
  {
  }

  lemma CombCut(n: nat, k: nat, x: int)
    requires k <= n
    ensures Covers(Comb(n), x) <==> Covers(Comb(n)[..k], x) || Covers(Comb(n)[k..], x)
  {
    hide *;
    CoversConcat(Comb(n)[..k], Comb(n)[k..], x);
    assert Comb(n)[..k] + Comb(n)[k..] == Comb(n);
  }

  lemma WrapsAround()
    ensures ToInt16(32768) == -32768
  {
  }

  /** A row that fits the plane but not its count: 16384 separate pixels, united from two rows of 8192. */
  lemma CombDoesNotFit(first: Line, second: Line, out: Line)
    requires first == Comb(16384)[..8192] && second == Comb(16384)[8192..] && Strict(out)
    requires forall x :: Covers(out, x) <==> Covers(first, x) || Covers(second, x)
    ensures Strict(first) && Strict(second) && out == Comb(16384)
    ensures ToInt16(2 * |out|) == -32768 && StoredRow(Row(0, out)) != EncodeRow(Row(0, out))
  {
    hide *;
    var comb := Comb(16384);
    CombIsStrict(16384, 0, 8192);
    CombIsStrict(16384, 8192, 16384);
    CombIsStrict(16384, 0, 16384);
    assert first == comb[0..8192] && second == comb[8192..16384] && comb == comb[0..16384];
    forall x ensures Covers(comb, x) <==> Covers(first, x) || Covers(second, x) {
      CombCut(16384, 8192, x);
    }
    StrictUnique(out, comb);
    assert out == comb && |comb| == 16384;
    CountStored(Row(0, out));
    WrapsAround();
  }
}
