/** One-bit images with a clip region (`emu/graphics/bitmap_image.cc`). */
module Bitmaps {
  import opened Geometry
  import opened Scanlines
  import opened Regions
  import RegionOps
  import opened Bits
  import opened BitCopy
  import opened Raster
  import opened Ellipses
  import opened Blits

  // ---- Reading the clip row by row --------------------------------------------------------------

  /** Hands out the line in force at ever larger `y`. */
  class RegionCursor {
    const data: seq<int>
    var index: nat
    ghost var k: nat

    ghost predicate Valid()
      reads this
    {
      index <= |data| && k <= |Decode(data)| && RegionOps.At(data, index, Decode(data), k)
    }

    constructor (region: seq<int>)
      requires Readable(region)
      ensures Valid() && data == region && k == 0
    {
      data := region;
      index, k := 0, 0;
      RegionOps.StreamStarts(region);
    }

    /** Asked for rows in order, it yields the line in force; asked for a row already passed, the line it had. */
    method TryAdvanceScanline(y: int, scanline: Line) returns (output: Line)
      requires Valid() && Readable(data) && scanline == LineBefore(Decode(data), k)
      modifies this
      ensures Valid() && output == LineBefore(Decode(data), k) && NoneAbove(Decode(data), k, y)
      ensures old(NoneBelow(Decode(data), k, y)) ==>
                NoneBelow(Decode(data), k, y) && output == LineAt(Decode(data), y)
      ensures old(NoneAbove(Decode(data), k, y)) ==> k == old(k) && output == scanline
    {
      hide *;
      RegionOps.ReadableRows(data);
      AtIndex();
      output := scanline;
      ghost var rows := Decode(data);
      ghost var inOrder := NoneBelow(rows, k, y);
      ghost var k0 := k;
      while index < |data|
        invariant Valid() && k <= |rows| && output == LineBefore(rows, k)
        invariant inOrder ==> NoneBelow(rows, k, y)
        invariant NoneAbove(rows, k0, y) ==> k == k0
        decreases |rows| - k
      {
        AtIndex();
        CursorAtRow(data, index, rows, k, y);
        if data[index] > y {
          if inOrder { InForce(rows, k, y); }
          return;
        }
        var count := data[index + 1];
        output := ReadPairs(data[index + 2..index + 2 + count]);
        index := index + 2 + count;
        k := k + 1;
        NowAt();
      }
      AtIndex();
      CursorAtEnd(data, index, rows, k, y);
      if inOrder { InForce(rows, k, y); }
    }

    lemma AtIndex()
      requires Valid()
      ensures index <= |data| && k <= |Decode(data)| && RegionOps.At(data, index, Decode(data), k)
    {
    }

    lemma NowAt()
      requires index <= |data| && k <= |Decode(data)| && RegionOps.At(data, index, Decode(data), k)
      ensures Valid()
    {
    }
  }

  /** The row after the first `k`, and so all that follow, lie below `y`. */
  ghost predicate NoneAbove(rows: seq<Row>, k: nat, y: int) {
    k <= |rows| && (k < |rows| ==> y < rows[k].y)
  }

  /** The first `k` rows lie at or above `y`. */
  ghost predicate NoneBelow(rows: seq<Row>, k: nat, y: int) {
    k <= |rows| && forall i :: 0 <= i < k ==> rows[i].y <= y
  }

  lemma CursorAtRow(data: seq<int>, p: nat, rows: seq<Row>, k: nat, y: int)
    requires RegionOps.At(data, p, rows, k) && p < |data|
    ensures k < |rows| && p + 1 < |data|
    ensures var count := data[p + 1];
            && 0 <= count && count % 2 == 0 && p + 2 + count <= |data|
            && ReadRanges(data[p + 2..p + 2 + count]) == LineBefore(rows, k + 1)
            && RegionOps.At(data, p + 2 + count, rows, k + 1)
    ensures y < data[p] <==> NoneAbove(rows, k, y)
    ensures data[p] <= y && NoneBelow(rows, k, y) ==> NoneBelow(rows, k + 1, y)
  {
    RegionOps.AtRow(data, p, rows, k);
    hide RegionOps.At, ReadRanges;
  }

  lemma CursorAtEnd(data: seq<int>, p: nat, rows: seq<Row>, k: nat, y: int)
    requires RegionOps.At(data, p, rows, k) && p == |data|
    ensures NoneAbove(rows, k, y)
  {
    RegionOps.AtRow(data, p, rows, k);
  }

  lemma InForce(rows: seq<Row>, k: nat, y: int)
    requires RowsInOrder(rows) && NoneBelow(rows, k, y) && NoneAbove(rows, k, y)
    ensures LineAt(rows, y) == LineBefore(rows, k)
  {
    LineAtPrefix(rows, k, y);
    if k > 0 {
      LineAtRow(rows[..k], k - 1, y);
    }
  }

  method ReadPairs(data: seq<int>) returns (line: Line)
    requires |data| % 2 == 0
    ensures line == ReadRanges(data)
  {
    line := [];
    var i := 0;
    while i < |data|
      invariant 0 <= i <= |data| && i % 2 == 0
      invariant line + ReadRanges(data[i..]) == ReadRanges(data)
    {
      assert data[i..][2..] == data[i + 2..];
      line := line + [Range(data[i], data[i + 1])];
      i := i + 2;
    }
  }

  // ---- Painting one run of pixels ---------------------------------------------------------------

  /** Paints the pixels `start` up to `end` of one row: the part of a byte at either end, whole bytes between. */
  method FillSpan(bitmap: array<Byte>, rowStart: nat, start: nat, end: nat, pattern: Byte, mode: FillMode)
    requires start <= end && 8 * rowStart + end <= 8 * bitmap.Length
    modifies bitmap
    ensures FilledRun(bitmap[..], old(bitmap[..]), 8 * rowStart + start, end - start, pattern, mode)
  {
    hide *;
    ghost var was := bitmap[..];
    ghost var at := 8 * rowStart + start;
    NothingFilled(was, at, pattern, mode);
    var startByte := rowStart + start / 8;
    var remaining := end - start;
    var startOffset := start % 8;
    if startOffset != 0 {
      var alignedSize := startOffset + (end - start);
      if alignedSize <= 8 {
        MiddleMask(startOffset, alignedSize);
        PaintByte(bitmap, startByte, LowMask(startOffset) & !LowMask(alignedSize), pattern, mode,
                  was, at, 0, startOffset, alignedSize);
        return;
      }
      HeadMask(startOffset);
      PaintByte(bitmap, startByte, LowMask(startOffset), pattern, mode, was, at, 0, startOffset, 8);
      remaining := remaining - (8 - startOffset);
      startByte := startByte + 1;
    }
    var fullBytes := remaining / 8;
    ghost var n := (end - start) - remaining;
    for i := 0 to fullBytes
      invariant FilledRun(bitmap[..], was, at, n + 8 * i, pattern, mode)
    {
      FullMask();
      PaintByte(bitmap, startByte + i, 0xff, pattern, mode, was, at, n + 8 * i, 0, 8);
    }
    var endOutset := remaining % 8;
    if endOutset != 0 {
      TailMask(endOutset);
      PaintByte(bitmap, startByte + fullBytes, !LowMask(endOutset), pattern, mode, was, at, n + 8 * fullBytes, 0,
                endOutset);
    }
  }

  /** The pixels of `mask` are those from `lo` up to `hi`. */
  ghost predicate Spans(mask: Byte, lo: nat, hi: nat) {
    forall i :: 0 <= i < 8 ==> Bit(mask, i) == (lo <= i < hi)
  }

  lemma MiddleMask(lo: nat, hi: nat)
    requires lo <= hi <= 8
    ensures Spans(LowMask(lo) & !LowMask(hi), lo, hi)
  {
    hide Bit, LowMask;
    var mask := LowMask(lo) & !LowMask(hi);
    forall i | 0 <= i < 8 ensures Bit(mask, i) == (lo <= i < hi) {
      MaskBit(lo, i);
      MaskBit(hi, i);
      NotBit(LowMask(hi), i);
      AndBit(LowMask(lo), !LowMask(hi), i);
    }
  }

  lemma HeadMask(lo: nat)
    requires lo <= 8
    ensures Spans(LowMask(lo), lo, 8)
  {
    hide Bit, LowMask;
    forall i | 0 <= i < 8 ensures Bit(LowMask(lo), i) == (lo <= i < 8) { MaskBit(lo, i); }
  }

  lemma FullMask()
    ensures Spans(0xff, 0, 8)
  {
    HeadMask(0);
  }

  lemma TailMask(hi: nat)
    requires hi <= 8
    ensures Spans(!LowMask(hi), 0, hi)
  {
    hide Bit, LowMask;
    var mask := !LowMask(hi);
    forall i | 0 <= i < 8 ensures Bit(mask, i) == (0 <= i < hi) {
      MaskBit(hi, i);
      NotBit(LowMask(hi), i);
    }
  }

  /** Paints the pixels of `mask` in one byte. */
  method PaintByte(bitmap: array<Byte>, index: nat, mask: Byte, pattern: Byte, mode: FillMode,
                   ghost was: seq<Byte>, ghost at: nat, ghost n: nat, ghost lo: nat, ghost hi: nat)
    requires index < bitmap.Length == |was|
    requires lo <= hi <= 8 && Spans(mask, lo, hi)
    requires at + n + (hi - lo) <= 8 * |was| && at + n == 8 * index + lo
    requires FilledRun(bitmap[..], was, at, n, pattern, mode)
    modifies bitmap
    ensures FilledRun(bitmap[..], was, at, n + (hi - lo), pattern, mode)
  {
    assert forall i :: 0 <= i < 8 ==> Bit(mask, i) == (lo <= i < hi);
    hide *;
    FillByte(bitmap[..], was, at, n, pattern, mode, index, mask, lo, hi);
    ghost var now := bitmap[..];
    SetIndexWithMask(bitmap, index, mask, pattern, mode);
  }

  method SetIndexWithMask(bitmap: array<Byte>, index: nat, mask: Byte, pattern: Byte, mode: FillMode)
    requires index < bitmap.Length
    modifies bitmap
    ensures bitmap[..] == old(bitmap[..])[index := Blend(mode, old(bitmap[index]), mask, pattern)]
  {
    match mode
    case Copy => ClearAndDraw(bitmap, index, mask, pattern);
    case XOr => bitmap[index] := bitmap[index] ^ (mask & pattern);
    case NotXOr => bitmap[index] := bitmap[index] ^ (mask & !pattern);
  }

  method ClearAndDraw(bitmap: array<Byte>, index: nat, mask: Byte, pattern: Byte)
    requires index < bitmap.Length
    modifies bitmap
    ensures bitmap[..] == old(bitmap[..])[index := (old(bitmap[index]) & !mask) | (mask & pattern)]
  {
    bitmap[index] := bitmap[index] & !mask;
    bitmap[index] := bitmap[index] | (mask & pattern);
  }

  // ---- What painting means, pixel by pixel ------------------------------------------------------

  /** `now` is `was` with the covered pixels of one row painted. */
  ghost predicate RowPainted(now: seq<Byte>, was: seq<Byte>, e: Extent, row: int, start: int, end: int, line: Line,
                             pattern: Byte, mode: FillMode)
  {
    && |now| == |was| == e.Size()
    && forall x, y :: e.Has(x, y) ==> RowPixel(now, was, e, row, start, end, line, pattern, mode, x, y)
  }

  ghost predicate RowPixel(now: seq<Byte>, was: seq<Byte>, e: Extent, row: int, start: int, end: int, line: Line,
                           pattern: Byte, mode: FillMode, x: int, y: int)
    requires |now| == |was| == e.Size() && e.Has(x, y)
  {
    Pixel(now, e, x, y) == if y == row && start <= x < end && Covers(line, x)
                           then Combine(mode, Pixel(was, e, x, y), Bit(pattern, x % 8))
                           else Pixel(was, e, x, y)
  }

  lemma NoRowPainted(was: seq<Byte>, e: Extent, row: int, start: int, end: int, pattern: Byte, mode: FillMode)
    requires |was| == e.Size()
    ensures RowPainted(was, was, e, row, start, end, [], pattern, mode)
  {
  }

  /** Painting the clipped part of one more range. */
  lemma RangePainted(after: seq<Byte>, now: seq<Byte>, was: seq<Byte>, e: Extent, row: int, start: int, end: int,
                     line: Line, i: nat, lo: int, hi: int, pattern: Byte, mode: FillMode)
    requires Sorted(line) && i < |line|
    requires RowPainted(now, was, e, row, start, end, line[..i], pattern, mode)
    requires lo == Max(start, line[i].start) && hi == Min(end, line[i].end)
    requires RangeFilled(after, now, e, row, lo, hi, pattern, mode)
    ensures RowPainted(after, was, e, row, start, end, line[..i + 1], pattern, mode)
  {
    hide RowPixel, Covers, Apart, PixelAt, Bit, Combine;
    forall x, y | e.Has(x, y) ensures RowPixel(after, was, e, row, start, end, line[..i + 1], pattern, mode, x, y) {
      RangePixel(after, now, was, e, row, start, end, line, i, lo, hi, pattern, mode, x, y);
    }
  }

  lemma RangePixel(after: seq<Byte>, now: seq<Byte>, was: seq<Byte>, e: Extent, row: int, start: int, end: int,
                   line: Line, i: nat, lo: int, hi: int, pattern: Byte, mode: FillMode, x: int, y: int)
    requires Sorted(line) && i < |line| && |after| == |now| == |was| == e.Size() && e.Has(x, y)
    requires RowPixel(now, was, e, row, start, end, line[..i], pattern, mode, x, y)
    requires lo == Max(start, line[i].start) && hi == Min(end, line[i].end)
    requires RangeFilled(after, now, e, row, lo, hi, pattern, mode)
    ensures RowPixel(after, was, e, row, start, end, line[..i + 1], pattern, mode, x, y)
  {
    hide Covers, Apart, Pixel, Bit, Combine, RangeFilled, Extent.RowBytes;
    CoversTake(line, i, x);
    CoveredOnce(line, i, x);
    FilledPixel(after, now, e, row, lo, hi, pattern, mode, x, y);
  }

  // ---- The image --------------------------------------------------------------------------------

  /** A clip region that lies on the image. */
  ghost predicate ClipFits(clip: Region, e: Extent) {
    && Readable(clip.data) && Encloses(clip.rect, clip.data) && Ordered(clip.rect)
    && forall x, y :: Contains(clip.data, x, y) ==> 0 <= x < e.width && 0 <= y < e.height
  }

  // ---- Shapes -----------------------------------------------------------------------------------

  /** What a drawing call has covered so far: a rect; the top, the sides down to some row, and the bottom of a frame;
      or an ellipse from some way above its centre row to some way below. */
  datatype Shape =
    | Box(rect: Rect)
    | Frame(rect: Rect, top: bool, leftTo: int, rightTo: int, bottom: bool)
    | Disc(rect: Rect, above: int, below: int)

  /** How often the drawing call has painted the pixel. */
  ghost function Hits(s: Shape, x: int, y: int): nat {
    match s
    case Box(r) => One(PointInRect(x, y, r))
    case Frame(r, top, leftTo, rightTo, bottom) =>
      One(top && y == r.top && r.left <= x < r.right)
      + One(r.top + 1 <= y < leftTo && x == r.left) + One(r.top + 1 <= y < rightTo && x == r.right - 1)
      + One(bottom && y == r.bottom - 1 && r.left <= x < r.right)
    case Disc(r, above, below) => One(InDisc(r, above, below, x, y))
  }

  function One(b: bool): nat { if b then 1 else 0 }

  /** Painting the same ink `n` times. */
  ghost predicate CombineTimes(mode: FillMode, was: bool, ink: bool, n: nat) {
    if n == 0 then was else Combine(mode, CombineTimes(mode, was, ink, n - 1), ink)
  }

  /** The ellipse inscribed in `r`: the centre row is full, each other row as wide as the ellipse allows. */
  ghost predicate InDisc(r: Rect, above: int, below: int, x: int, y: int) {
    var halfWidth, halfHeight := (r.right - r.left) / 2, (r.bottom - r.top) / 2;
    var dx, dy := x - (r.left + halfWidth), y - (r.top + halfHeight);
    var away := if dy < 0 then -dy else dy;
    && -above <= dy <= below
    && if dy == 0 then r.left <= x < r.right else InEllipseRow(dx, away, halfWidth, halfHeight)
  }

  /** `now` is `was` with a shape painted inside the clip. The pattern starts at row `inkTop` and column `inkLeft`. */
  ghost predicate Painted(now: seq<Byte>, was: seq<Byte>, e: Extent, s: Shape, inkTop: int, inkLeft: int,
                          clip: seq<int>, pattern: seq<Byte>, mode: FillMode)
    requires |pattern| == 8
  {
    && |now| == |was| == e.Size()
    && forall x, y :: e.Has(x, y) ==> ShapePixel(now, was, e, s, inkTop, inkLeft, clip, pattern, mode, x, y)
  }

  ghost predicate ShapePixel(now: seq<Byte>, was: seq<Byte>, e: Extent, s: Shape, inkTop: int, inkLeft: int,
                             clip: seq<int>, pattern: seq<Byte>, mode: FillMode, x: int, y: int)
    requires |pattern| == 8 && |now| == |was| == e.Size() && e.Has(x, y)
  {
    Pixel(now, e, x, y) == if Contains(clip, x, y)
                           then CombineTimes(mode, Pixel(was, e, x, y), Ink(pattern, inkTop, inkLeft, x, y),
                                             Hits(s, x, y))
                           else Pixel(was, e, x, y)
  }

  /** The pattern's pixel at (x, y). A pattern never starts left of the image. */
  predicate Ink(pattern: seq<Byte>, inkTop: int, inkLeft: int, x: int, y: int)
    requires |pattern| == 8
  {
    Bit(pattern[(y - inkTop) % 8], (x - Max(0, inkLeft)) % 8)
  }

  /** Row `index` of the pattern, rotated so that it starts at column `left` whatever byte that falls in. */
  function Swatch(pattern: seq<Byte>, index: int, left: int): Byte
    requires |pattern| == 8
  {
    RotateRight(pattern[index % 8], Max(0, left) % 8)
  }

  /** Filling a rect twice in the same exclusive-or mode leaves every byte as it was. */
  lemma XOrTwice(c: seq<Byte>, b: seq<Byte>, a: seq<Byte>, e: Extent, rect: Rect, clip: seq<int>, pattern: seq<Byte>,
                 mode: FillMode)
    requires |pattern| == 8 && mode != Copy
    requires Painted(b, a, e, Box(rect), rect.top, rect.left, clip, pattern, mode)
    requires Painted(c, b, e, Box(rect), rect.top, rect.left, clip, pattern, mode)
    ensures c == a
  {
    hide Contains, Pixel, Ink, PointInRect;
    forall x, y | e.Has(x, y) ensures Pixel(c, e, x, y) == Pixel(a, e, x, y) {
      assert ShapePixel(b, a, e, Box(rect), rect.top, rect.left, clip, pattern, mode, x, y);
      assert ShapePixel(c, b, e, Box(rect), rect.top, rect.left, clip, pattern, mode, x, y);
      PaintedOnce(mode, Pixel(a, e, x, y), Ink(pattern, rect.top, rect.left, x, y), PointInRect(x, y, rect));
      PaintedOnce(mode, Pixel(b, e, x, y), Ink(pattern, rect.top, rect.left, x, y), PointInRect(x, y, rect));
    }
    SamePixels(c, a, e);
  }

  lemma PaintedOnce(mode: FillMode, was: bool, ink: bool, hit: bool)
    ensures CombineTimes(mode, was, ink, One(hit)) == if hit then Combine(mode, was, ink) else was
  {
    assert CombineTimes(mode, was, ink, 0) == was;
  }

  /** The pattern tiles the plane from `inkTop` and from `inkLeft`, or from column zero if that is negative. */
  lemma InkIs(pattern: seq<Byte>, inkTop: int, inkLeft: int, x: int, y: int)
    requires |pattern| == 8
    ensures Ink(pattern, inkTop, inkLeft, x, y)
            == PixelAt(pattern, 8 * ((y - inkTop) % 8) + (x - if inkLeft < 0 then 0 else inkLeft) % 8)
  {
    hide Bit;
    PixelIndex(pattern, (y - inkTop) % 8, (x - Max(0, inkLeft)) % 8);
  }

  /** Painting `n` times: a copy counts once, an exclusive-or by whether `n` is odd. */
  lemma {:induction false} CombineTimesIs(mode: FillMode, was: bool, ink: bool, n: nat)
    ensures CombineTimes(mode, was, ink, n) ==
            match mode
            case Copy => if n == 0 then was else ink
            case XOr => was != (ink && n % 2 == 1)
            case NotXOr => was != (!ink && n % 2 == 1)
  {
    if n > 0 {
      CombineTimesIs(mode, was, ink, n - 1);
    }
  }

  /** A filled rect, pixel by pixel. */
  lemma BoxFilled(now: seq<Byte>, was: seq<Byte>, e: Extent, rect: Rect, clip: seq<int>, pattern: seq<Byte>,
                  mode: FillMode)
    requires |pattern| == 8 && Painted(now, was, e, Box(rect), rect.top, rect.left, clip, pattern, mode)
    ensures |now| == |was| == e.Size()
    ensures forall x, y :: e.Has(x, y) ==>
              Pixel(now, e, x, y)
              == if !(PointInRect(x, y, rect) && Contains(clip, x, y)) then Pixel(was, e, x, y) else
                 var ink :=
                   PixelAt(pattern, 8 * ((y - rect.top) % 8) + (x - if rect.left < 0 then 0 else rect.left) % 8);
                 match mode
                 case Copy => ink
                 case XOr => Pixel(was, e, x, y) != ink
                 case NotXOr => Pixel(was, e, x, y) == ink
  {
    hide Pixel, PixelAt, Contains, Ink, PointInRect;
    forall x, y | e.Has(x, y)
      ensures Pixel(now, e, x, y)
              == if !(PointInRect(x, y, rect) && Contains(clip, x, y)) then Pixel(was, e, x, y) else
                 var ink :=
                   PixelAt(pattern, 8 * ((y - rect.top) % 8) + (x - if rect.left < 0 then 0 else rect.left) % 8);
                 match mode
                 case Copy => ink
                 case XOr => Pixel(was, e, x, y) != ink
                 case NotXOr => Pixel(was, e, x, y) == ink
    {
      assert ShapePixel(now, was, e, Box(rect), rect.top, rect.left, clip, pattern, mode, x, y);
      InkIs(pattern, rect.top, rect.left, x, y);
      PaintedOnce(mode, Pixel(was, e, x, y), Ink(pattern, rect.top, rect.left, x, y), PointInRect(x, y, rect));
    }
  }

  /** A frame, pixel by pixel: `n` of its four runs cross the pixel. */
  lemma FrameDrawn(now: seq<Byte>, was: seq<Byte>, e: Extent, rect: Rect, clip: seq<int>, pattern: seq<Byte>,
                   mode: FillMode)
    requires |pattern| == 8 && rect.top < rect.bottom
    requires Painted(now, was, e, Frame(rect, true, rect.bottom - 1, rect.bottom - 1, true), 0, rect.left, clip,
                     pattern, mode)
    ensures |now| == |was| == e.Size()
    ensures forall x, y :: e.Has(x, y) ==>
              Pixel(now, e, x, y)
              == if !Contains(clip, x, y) then Pixel(was, e, x, y) else
                 var across := rect.left <= x < rect.right;
                 var n := (if y == rect.top && across then 1 else 0) + (if y == rect.bottom - 1 && across then 1 else 0)
                          + (if rect.top < y < rect.bottom - 1 && x == rect.left then 1 else 0)
                          + (if rect.top < y < rect.bottom - 1 && x == rect.right - 1 then 1 else 0);
                 var ink := PixelAt(pattern, 8 * (y % 8) + (x - if rect.left < 0 then 0 else rect.left) % 8);
                 match mode
                 case Copy => if n == 0 then Pixel(was, e, x, y) else ink
                 case XOr => Pixel(was, e, x, y) != (ink && n % 2 == 1)
                 case NotXOr => Pixel(was, e, x, y) != (!ink && n % 2 == 1)
  {
    hide Pixel, PixelAt, Contains, Ink;
    forall x, y | e.Has(x, y)
      ensures Pixel(now, e, x, y)
              == if !Contains(clip, x, y) then Pixel(was, e, x, y) else
                 var across := rect.left <= x < rect.right;
                 var n := (if y == rect.top && across then 1 else 0) + (if y == rect.bottom - 1 && across then 1 else 0)
                          + (if rect.top < y < rect.bottom - 1 && x == rect.left then 1 else 0)
                          + (if rect.top < y < rect.bottom - 1 && x == rect.right - 1 then 1 else 0);
                 var ink := PixelAt(pattern, 8 * (y % 8) + (x - if rect.left < 0 then 0 else rect.left) % 8);
                 match mode
                 case Copy => if n == 0 then Pixel(was, e, x, y) else ink
                 case XOr => Pixel(was, e, x, y) != (ink && n % 2 == 1)
                 case NotXOr => Pixel(was, e, x, y) != (!ink && n % 2 == 1)
    {
      var frame := Frame(rect, true, rect.bottom - 1, rect.bottom - 1, true);
      assert ShapePixel(now, was, e, frame, 0, rect.left, clip, pattern, mode, x, y);
      InkIs(pattern, 0, rect.left, x, y);
      CombineTimesIs(mode, Pixel(was, e, x, y), Ink(pattern, 0, rect.left, x, y), Hits(frame, x, y));
    }
  }

  /** The ellipse in whole numbers: off the centre row, a pixel is filled if its far side lies inside. */
  lemma InDiscIs(rect: Rect, x: int, y: int)
    requires rect.top <= rect.bottom && rect.left <= rect.right
    ensures var a, b := (rect.right - rect.left) / 2, (rect.bottom - rect.top) / 2;
            var dx, dy := x - (rect.left + a), y - (rect.top + b);
            var far := if dx < 0 then -dx else dx + 1;
            InDisc(rect, b, b, x, y) <==>
            -b <= dy <= b && if dy == 0 then rect.left <= x < rect.right
                             else (far * far) * (b * b) + (dy * dy) * (a * a) <= (b * b) * (a * a)
  {
    var a, b := (rect.right - rect.left) / 2, (rect.bottom - rect.top) / 2;
    var dx, dy := x - (rect.left + a), y - (rect.top + b);
    var away := if dy < 0 then -dy else dy;
    assert dy * dy == away * away;
    if 0 < away <= b {
      FarSideInside(dx, away, a, b);
    }
    hide InEllipseRow;
  }

  /** A filled ellipse, pixel by pixel. */
  lemma DiscFilled(now: seq<Byte>, was: seq<Byte>, e: Extent, rect: Rect, clip: seq<int>, pattern: seq<Byte>)
    requires |pattern| == 8 && rect.top <= rect.bottom && rect.left <= rect.right
    requires var b := (rect.bottom - rect.top) / 2;
             Painted(now, was, e, Disc(rect, b, b), rect.top, rect.left, clip, pattern, Copy)
    ensures |now| == |was| == e.Size()
    ensures forall x, y :: e.Has(x, y) ==>
              Pixel(now, e, x, y)
              == if !Contains(clip, x, y) then Pixel(was, e, x, y) else
                 var a, b := (rect.right - rect.left) / 2, (rect.bottom - rect.top) / 2;
                 var dx, dy := x - (rect.left + a), y - (rect.top + b);
                 var far := if dx < 0 then -dx else dx + 1;
                 if -b <= dy <= b && (if dy == 0 then rect.left <= x < rect.right
                                      else (far * far) * (b * b) + (dy * dy) * (a * a) <= (b * b) * (a * a))
                 then PixelAt(pattern, 8 * ((y - rect.top) % 8) + (x - if rect.left < 0 then 0 else rect.left) % 8)
                 else Pixel(was, e, x, y)
  {
    hide Pixel, PixelAt, Contains, Ink, InDisc;
    var b := (rect.bottom - rect.top) / 2;
    forall x, y | e.Has(x, y)
      ensures Pixel(now, e, x, y)
              == if !Contains(clip, x, y) then Pixel(was, e, x, y) else
                 var a, b := (rect.right - rect.left) / 2, (rect.bottom - rect.top) / 2;
                 var dx, dy := x - (rect.left + a), y - (rect.top + b);
                 var far := if dx < 0 then -dx else dx + 1;
                 if -b <= dy <= b && (if dy == 0 then rect.left <= x < rect.right
                                      else (far * far) * (b * b) + (dy * dy) * (a * a) <= (b * b) * (a * a))
                 then PixelAt(pattern, 8 * ((y - rect.top) % 8) + (x - if rect.left < 0 then 0 else rect.left) % 8)
                 else Pixel(was, e, x, y)
    {
      assert ShapePixel(now, was, e, Disc(rect, b, b), rect.top, rect.left, clip, pattern, Copy, x, y);
      InkIs(pattern, rect.top, rect.left, x, y);
      InDiscIs(rect, x, y);
      PaintedOnce(Copy, Pixel(was, e, x, y), Ink(pattern, rect.top, rect.left, x, y), InDisc(rect, b, b, x, y));
    }
  }

  ghost predicate NoHits(s: Shape) {
    forall x, y :: Hits(s, x, y) == 0
  }

  ghost predicate SameHits(s: Shape, s': Shape) {
    forall x, y :: Hits(s, x, y) == Hits(s', x, y)
  }

  lemma NothingPainted(was: seq<Byte>, e: Extent, s: Shape, inkTop: int, inkLeft: int,
                       clip: seq<int>, pattern: seq<Byte>, mode: FillMode)
    requires |pattern| == 8 && |was| == e.Size() && NoHits(s)
    ensures Painted(was, was, e, s, inkTop, inkLeft, clip, pattern, mode)
  {
  }

  /** One more run of pixels, on one row, of a growing shape. */
  ghost predicate Grows(s: Shape, s': Shape, row: int, start: int, end: int) {
    forall x, y :: Hits(s', x, y) == Hits(s, x, y) + One(y == row && start <= x < end)
  }

  lemma RowOfShape(after: seq<Byte>, now: seq<Byte>, was: seq<Byte>, e: Extent, s: Shape, s': Shape,
                   inkTop: int, inkLeft: int, clip: Region, row: int, start: int, end: int,
                   line: Line, pattern: seq<Byte>, mode: FillMode, swatch: Byte)
    requires |pattern| == 8 && ClipFits(clip, e)
    requires Painted(now, was, e, s, inkTop, inkLeft, clip.data, pattern, mode)
    requires swatch == Swatch(pattern, row - inkTop, inkLeft)
    requires line == if clip.rect.top <= row < clip.rect.bottom then LineAt(Decode(clip.data), row) else []
    requires RowPainted(after, now, e, row, start, end, line, swatch, mode)
    requires Grows(s, s', row, start, end)
    ensures Painted(after, was, e, s', inkTop, inkLeft, clip.data, pattern, mode)
  {
    hide RowPixel, ShapePixel, Readable, Swatch, Bit, LineAt, Decode, Contains, Hits;
    forall x, y | e.Has(x, y) ensures ShapePixel(after, was, e, s', inkTop, inkLeft, clip.data, pattern, mode, x, y) {
      LineIsClip(clip, e, row, line, x);
      assert RowPixel(after, now, e, row, start, end, line, swatch, mode, x, y);
      assert ShapePixel(now, was, e, s, inkTop, inkLeft, clip.data, pattern, mode, x, y);
      assert Hits(s', x, y) == Hits(s, x, y) + One(y == row && start <= x < end);
      PixelOfRow(after, now, was, e, s, s', inkTop, inkLeft, clip.data, row, start, end, line, pattern, mode, swatch,
                 x, y);
    }
  }

  /** Within the bounding rect or without, the line painted on a row covers the clip's pixels there. */
  lemma LineIsClip(clip: Region, e: Extent, y: int, line: Line, x: int)
    requires ClipFits(clip, e)
    requires line == if clip.rect.top <= y < clip.rect.bottom then LineAt(Decode(clip.data), y) else []
    ensures Covers(line, x) <==> Contains(clip.data, x, y)
    ensures Contains(clip.data, x, y) ==> 0 <= x < e.width && 0 <= y < e.height
  {
    hide Readable, LineAt, Decode;
    assert Contains(clip.data, x, y) ==> PointInRect(x, y, clip.rect);
  }

  lemma PixelOfRow(after: seq<Byte>, now: seq<Byte>, was: seq<Byte>, e: Extent, s: Shape, s': Shape,
                   inkTop: int, inkLeft: int, clip: seq<int>, row: int, start: int, end: int,
                   line: Line, pattern: seq<Byte>, mode: FillMode, swatch: Byte, x: int, y: int)
    requires |pattern| == 8 && |after| == |now| == |was| == e.Size() && e.Has(x, y)
    requires swatch == Swatch(pattern, row - inkTop, inkLeft)
    requires RowPixel(after, now, e, row, start, end, line, swatch, mode, x, y)
    requires ShapePixel(now, was, e, s, inkTop, inkLeft, clip, pattern, mode, x, y)
    requires Hits(s', x, y) == Hits(s, x, y) + One(y == row && start <= x < end)
    requires Covers(line, x) <==> Contains(clip, x, row)
    ensures ShapePixel(after, was, e, s', inkTop, inkLeft, clip, pattern, mode, x, y)
  {
    SwatchBit(pattern[(row - inkTop) % 8], Max(0, inkLeft), x);
    hide Pixel, RotateRight, Bit, Contains, Covers, Hits;
  }

  lemma SwatchBit(p: Byte, left: nat, x: int)
    requires 0 <= x
    ensures Bit(RotateRight(p, left % 8), x % 8) == Bit(p, (x - left) % 8)
  {
    hide Bit, RotateRight;
    RotateBit(p, left % 8, x % 8);
    assert (x % 8 + 8 - left % 8) % 8 == (x - left) % 8;
  }

  class BitmapImage {
    const width: nat
    const height: nat
    const bitmap: array<Byte>
    var clip: Region

    function Extent(): Extent { Raster.Extent(width, height) }

    ghost predicate Valid()
      reads this
    {
      width <= INT16_MAX && height <= INT16_MAX && bitmap.Length == Extent().Size() && ClipFits(clip, Extent())
    }

    constructor (width: nat, height: nat)
      requires width <= INT16_MAX && height <= INT16_MAX
      ensures Valid() && this.width == width && this.height == height
      ensures fresh(bitmap) && forall j :: 0 <= j < bitmap.Length ==> bitmap[j] == 0
      ensures clip.rect == Rect(0, 0, height, width)
      ensures forall x, y :: Contains(clip.data, x, y) <==> 0 <= x < width && 0 <= y < height
    {
      hide Contains, Readable, Canonical, EndY;
      var rect := Rect(0, 0, height, width);
      var size := PixelWidthToBytes(width) * height;
      var region := RegionOps.NewRectRegion(rect);
      this.width, this.height := width, height;
      this.bitmap := new Byte[size](_ => 0);
      this.clip := region;
    }

    /** The clip is always cut back to the image. */
    method SetClipRegion(region: Region)
      requires Valid() && Readable(region.data)
      modifies this
      ensures Valid()
      ensures Canonical(region.data) && 0 < width && 0 < height ==> Canonical(clip.data)
      ensures forall x, y :: Contains(clip.data, x, y)
                             <==> Contains(region.data, x, y) && 0 <= x < width && 0 <= y < height
      ensures clip.data == [] ==> clip.rect == Rect(0, 0, 0, 0)
      ensures clip.data != [] ==> clip.rect.bottom == Max(EndY(region.data), height)
      ensures clip.data != [] && Canonical(region.data) && 0 < width && 0 < height ==> Attains(clip.rect, clip.data)
    {
      hide *;
      var rect := Rect(0, 0, height, width);
      ScreenRect(rect);
      var screen := RegionOps.NewRectRegion(rect);
      var clipped := RegionOps.Intersect(region, screen);
      ClippedFits(region, screen, clipped, rect);
      clip := clipped;
      NowValid();
    }

    lemma ScreenRect(rect: Rect)
      requires Valid() && rect == Rect(0, 0, height, width)
      ensures Sides16(rect) && Ordered(rect) && (0 < width && 0 < height ==> !EmptyRect(rect))
    {
    }

    lemma ClippedFits(region: Region, screen: Region, clipped: Region, rect: Rect)
      requires Valid() && rect == Rect(0, 0, height, width)
      requires Readable(clipped.data) && Encloses(clipped.rect, clipped.data) && Ordered(clipped.rect)
      requires forall x, y :: Contains(screen.data, x, y) <==> PointInRect(x, y, rect)
      requires forall x, y ::
                 Contains(clipped.data, x, y) <==> Contains(region.data, x, y) && Contains(screen.data, x, y)
      ensures ClipFits(clipped, Extent()) && width <= INT16_MAX && height <= INT16_MAX
              && bitmap.Length == Extent().Size()
      ensures forall x, y ::
                Contains(clipped.data, x, y) <==> Contains(region.data, x, y) && 0 <= x < width && 0 <= y < height
    {
      hide Readable, Encloses, Contains;
    }

    lemma NowValid()
      requires ClipFits(clip, Extent()) && width <= INT16_MAX && height <= INT16_MAX && bitmap.Length == Extent().Size()
      ensures Valid()
    {
    }

    /** Paints the part of one row that `scanline` covers. A row outside the clip's bounding rect is left alone. */
    method FillRow(row: int, start: int, end: int, scanline: Line, pattern: Byte, mode: FillMode)
      requires Valid() && Sorted(scanline)
      requires forall x :: Covers(scanline, x) ==> 0 <= x < width && 0 <= row < height
      modifies bitmap
      ensures RowPainted(bitmap[..], old(bitmap[..]), Extent(), row, start, end,
                         if clip.rect.top <= row < clip.rect.bottom then scanline else [], pattern, mode)
    {
      ghost var was := bitmap[..];
      ghost var e := Extent();
      NoRowPainted(was, e, row, start, end, pattern, mode);
      if row < clip.rect.top || row >= clip.rect.bottom {
        return;
      }
      hide *;
      for i := 0 to |scanline|
        invariant RowPainted(bitmap[..], was, e, row, start, end, scanline[..i], pattern, mode)
      {
        var clippedStart := Max(start, scanline[i].start);
        var clippedEnd := Min(end, scanline[i].end);
        ghost var now := bitmap[..];
        FillRange(scanline, i, start, end, clippedStart, clippedEnd, row, pattern, mode);
        RangePainted(bitmap[..], now, was, e, row, start, end, scanline, i, clippedStart, clippedEnd, pattern, mode);
      }
      assert scanline[..|scanline|] == scanline;
    }

    method FillRange(ghost scanline: Line, ghost i: nat, ghost start: int, ghost end: int, lo: int, hi: int,
                     row: int, pattern: Byte, mode: FillMode)
      requires Valid() && i < |scanline| && lo == Max(start, scanline[i].start) && hi == Min(end, scanline[i].end)
      requires forall x :: Covers(scanline, x) ==> 0 <= x < width && 0 <= row < height
      modifies bitmap
      ensures RangeFilled(bitmap[..], old(bitmap[..]), Extent(), row, lo, hi, pattern, mode)
    {
      hide Valid, Covers, FilledRun, PixelWidthToBytes, Raster.Extent.Size;
      if lo >= hi {
        return;
      }
      SizeFits();
      RowBytesIs();
      InsideImage(scanline, i, lo, hi, width, height, row);
      RunsFit(Extent(), row, lo, hi);
      FillSpan(bitmap, PixelWidthToBytes(width) * row, lo, hi, pattern, mode);
    }

    lemma RowBytesIs()
      ensures Extent() == Raster.Extent(width, height)
      ensures Extent().RowBytes() == PixelWidthToBytes(width) && Extent().height == height
      ensures Extent().Size() == PixelWidthToBytes(width) * height
    {
    }

    /** The cursor has handed out the line in force just above the rows still to come. */
    ghost predicate Following(cursor: RegionCursor, scanline: Line, y: int)
      reads this, cursor
    {
      && cursor.data == clip.data && cursor.Valid()
      && NoneBelow(Decode(clip.data), cursor.k, y) && scanline == LineBefore(Decode(clip.data), cursor.k)
    }

    /** Paints the clip's part of a run of row `y`. */
    method PaintRow(scanline: Line, y: int, start: int, end: int, swatch: Byte, mode: FillMode,
                    ghost was: seq<Byte>, ghost s: Shape, ghost s': Shape, ghost inkTop: int, ghost inkLeft: int,
                    ghost pattern: seq<Byte>)
      requires Valid() && scanline == LineAt(Decode(clip.data), y)
      requires |pattern| == 8 && swatch == Swatch(pattern, y - inkTop, inkLeft)
      requires Painted(bitmap[..], was, Extent(), s, inkTop, inkLeft, clip.data, pattern, mode)
      requires Grows(s, s', y, start, end)
      modifies bitmap
      ensures Painted(bitmap[..], was, Extent(), s', inkTop, inkLeft, clip.data, pattern, mode)
    {
      hide *;
      ghost var now := bitmap[..];
      ClipIsOn();
      ClipRow(y);
      FillRow(y, start, end, scanline, swatch, mode);
      RowOfShape(bitmap[..], now, was, Extent(), s, s', inkTop, inkLeft, clip, y, start, end,
                 if clip.rect.top <= y < clip.rect.bottom then scanline else [], pattern, mode, swatch);
    }

    /** Advances the cursor to row `y` and paints there. */
    method PaintNextRow(cursor: RegionCursor, scanline0: Line, y: int, start: int, end: int, swatch: Byte,
                        mode: FillMode,
                        ghost was: seq<Byte>, ghost s: Shape, ghost s': Shape, ghost inkTop: int, ghost inkLeft: int,
                        ghost pattern: seq<Byte>)
      returns (scanline: Line)
      requires Valid() && Following(cursor, scanline0, y)
      requires |pattern| == 8 && swatch == Swatch(pattern, y - inkTop, inkLeft)
      requires Painted(bitmap[..], was, Extent(), s, inkTop, inkLeft, clip.data, pattern, mode)
      requires Grows(s, s', y, start, end)
      modifies bitmap, cursor
      ensures Following(cursor, scanline, y) && scanline == LineAt(Decode(clip.data), y)
      ensures Passed(cursor, y)
      ensures Painted(bitmap[..], was, Extent(), s', inkTop, inkLeft, clip.data, pattern, mode)
    {
      hide *;
      scanline := Advance(cursor, scanline0, y);
      PaintRow(scanline, y, start, end, swatch, mode, was, s, s', inkTop, inkLeft, pattern);
    }

    method Advance(cursor: RegionCursor, scanline0: Line, y: int) returns (scanline: Line)
      requires Valid() && Following(cursor, scanline0, y)
      modifies cursor
      ensures Following(cursor, scanline, y) && scanline == LineAt(Decode(clip.data), y)
      ensures Passed(cursor, y)
    {
      scanline := cursor.TryAdvanceScanline(y, scanline0);
    }

    /** The cursor has no row left at or above `y`. */
    ghost predicate Passed(cursor: RegionCursor, y: int)
      reads this, cursor
    {
      cursor.data == clip.data && NoneAbove(Decode(clip.data), cursor.k, y)
    }

    /** Asks for row `y`, which the cursor may have passed: it then keeps to the line of row `passed`. */
    method AdvanceOrStay(cursor: RegionCursor, scanline0: Line, y: int, ghost passed: int) returns (scanline: Line)
      requires Valid()
      requires if y < passed then Following(cursor, scanline0, passed) && Passed(cursor, passed)
               else Following(cursor, scanline0, y)
      modifies cursor
      ensures if y < passed then scanline == scanline0 else scanline == LineAt(Decode(clip.data), y)
    {
      scanline := cursor.TryAdvanceScanline(y, scanline0);
    }

    lemma ClipIsOn()
      requires Valid()
      ensures ClipFits(clip, Extent()) && Readable(clip.data)
    {
    }

    lemma ClipRow(y: int)
      requires Valid()
      ensures var line := LineAt(Decode(clip.data), y);
              Sorted(line) && forall x :: Covers(line, x) ==> 0 <= x < width && 0 <= y < height
    {
      ClipLine(clip, Extent(), y);
    }

    lemma SizeFits()
      requires Valid()
      ensures bitmap.Length == Extent().Size()
    {
    }

    method StartCursor() returns (cursor: RegionCursor)
      requires Valid()
      ensures fresh(cursor) && forall y :: Following(cursor, [], y)
    {
      cursor := new RegionCursor(clip.data);
    }

    lemma FollowingLater(cursor: RegionCursor, scanline: Line, y: int, y': int)
      requires Following(cursor, scanline, y) && y <= y'
      ensures Following(cursor, scanline, y')
    {
    }

    /** Fills a rect from its top, counting rows: a height that does not fit 16 bits wraps. */
    method FillRect(rect: Rect, pattern: seq<Byte>, mode: FillMode)
      requires Valid() && |pattern| == 8 && Sides16(rect)
      modifies bitmap
      ensures Painted(bitmap[..], old(bitmap[..]), Extent(), Box(Counted(rect)), rect.top, rect.left, clip.data,
                      pattern, mode)
      ensures Int16Rect(rect) ==> Counted(rect) == rect
      ensures forall x, y :: Extent().Has(x, y) ==>
                Pixel(bitmap[..], Extent(), x, y)
                == if !(PointInRect(x, y, Counted(rect)) && Contains(clip.data, x, y))
                   then old(Pixel(bitmap[..], Extent(), x, y)) else
                   var ink :=
                     PixelAt(pattern, 8 * ((y - rect.top) % 8) + (x - if rect.left < 0 then 0 else rect.left) % 8);
                   match mode
                   case Copy => ink
                   case XOr => old(Pixel(bitmap[..], Extent(), x, y)) != ink
                   case NotXOr => old(Pixel(bitmap[..], Extent(), x, y)) == ink
    {
      hide *;
      ghost var was := bitmap[..];
      ghost var e := Extent();
      SizeFits();
      var cursor := StartCursor();
      var scanline: Line := [];
      var height := RectHeight(rect);
      ghost var counted := Counted(rect);
      CountedIs(rect);
      var row := 0;
      BoxNone(rect);
      NothingPainted(was, e, Box(rect.(bottom := rect.top)), rect.top, rect.left, clip.data, pattern, mode);
      while row < height
        invariant 0 <= row && (row == 0 || row <= height)
        invariant fresh(cursor) && Following(cursor, scanline, rect.top + row)
        invariant Painted(bitmap[..], was, e, Box(rect.(bottom := rect.top + row)), rect.top, rect.left, clip.data,
                          pattern, mode)
      {
        var swatch := Swatch(pattern, row, rect.left);
        BoxRows(rect, row);
        scanline := PaintNextRow(cursor, scanline, rect.top + row, rect.left, rect.right, swatch, mode,
                                 was, Box(rect.(bottom := rect.top + row)), Box(rect.(bottom := rect.top + row + 1)),
                                 rect.top, rect.left, pattern);
        FollowingLater(cursor, scanline, rect.top + row, rect.top + row + 1);
        row := row + 1;
      }
      BoxDone(counted, row);
      assert counted.(bottom := rect.top + row) == rect.(bottom := rect.top + row);
      PaintedSame(bitmap[..], was, e, Box(rect.(bottom := rect.top + row)), Box(counted), rect.top, rect.left,
                  clip.data, pattern, mode);
      BoxFilled(bitmap[..], was, e, counted, clip.data, pattern, mode);
    }

    /** A one-pixel border. The pattern's rows count from the top of the image here. A rect without height gets its
        top row and the row before its bottom, which lies above: both painted in the clip's line for the top row. */
    method FrameRect(rect: Rect, pattern: seq<Byte>, mode: FillMode)
      requires Valid() && |pattern| == 8 && Sides16(rect) && 0 <= rect.top && 1 <= rect.bottom
      modifies bitmap
      ensures rect.top < rect.bottom ==>
                Painted(bitmap[..], old(bitmap[..]), Extent(),
                        Frame(rect, true, rect.bottom - 1, rect.bottom - 1, true), 0, rect.left, clip.data, pattern,
                        mode)
      ensures rect.bottom <= rect.top ==>
                FlatFramed(bitmap[..], old(bitmap[..]), Extent(), rect, clip, pattern, mode)
    {
      hide *;
      ghost var was := bitmap[..];
      SizeFits();
      ClipIsOn();
      var cursor := StartCursor();
      var scanline: Line := [];
      ghost var first := rect.top + 1;
      FrameGrows(rect, first);
      NothingPainted(was, Extent(), Frame(rect, false, first, first, false), 0, rect.left, clip.data, pattern, mode);
      var swatch := Swatch(pattern, rect.top, rect.left);
      scanline := PaintNextRow(cursor, scanline, rect.top, rect.left, rect.right, swatch, mode,
                               was, Frame(rect, false, first, first, false), Frame(rect, true, first, first, false),
                               0, rect.left, pattern);
      scanline := FrameSides(cursor, scanline, rect, pattern, mode, was);
      var row := rect.bottom - 1;
      ghost var now := bitmap[..];
      swatch := Swatch(pattern, row, rect.left);
      ClipRow(rect.top);
      ClipRow(row);
      scanline := AdvanceOrStay(cursor, scanline, row, rect.top);
      FillRow(row, rect.left, rect.right, scanline, swatch, mode);
      ghost var line := if clip.rect.top <= row < clip.rect.bottom then scanline else [];
      if rect.top < rect.bottom {
        FrameBottom(rect);
        RowOfShape(bitmap[..], now, was, Extent(), Frame(rect, true, row, row, false),
                   Frame(rect, true, row, row, true), 0, rect.left, clip, row, rect.left, rect.right, line, pattern,
                   mode, swatch);
      } else {
        FlatFrame(bitmap[..], now, was, Extent(), rect, clip, line, pattern, mode, swatch);
      }
    }

    /** The sides of a frame, between its first row and its last. */
    method FrameSides(cursor: RegionCursor, scanline0: Line, rect: Rect, pattern: seq<Byte>, mode: FillMode,
                      ghost was: seq<Byte>)
      returns (scanline: Line)
      requires Valid() && |pattern| == 8
      requires Following(cursor, scanline0, rect.top) && Passed(cursor, rect.top)
      requires Painted(bitmap[..], was, Extent(), Frame(rect, true, rect.top + 1, rect.top + 1, false), 0, rect.left,
                       clip.data, pattern, mode)
      modifies bitmap, cursor
      ensures rect.top < rect.bottom ==>
                && Following(cursor, scanline, rect.bottom - 1)
                && Painted(bitmap[..], was, Extent(), Frame(rect, true, rect.bottom - 1, rect.bottom - 1, false), 0,
                           rect.left, clip.data, pattern, mode)
      ensures rect.bottom <= rect.top ==>
                && scanline == scanline0 && bitmap[..] == old(bitmap[..])
                && Following(cursor, scanline, rect.top) && Passed(cursor, rect.top)
    {
      hide *;
      scanline := scanline0;
      if rect.top + 1 < rect.bottom {
        FollowingLater(cursor, scanline, rect.top, rect.top + 1);
      }
      var row := rect.top + 1;
      while row < rect.bottom - 1
        invariant rect.top + 1 <= row && (row <= rect.bottom - 1 || row == rect.top + 1)
        invariant if row < rect.bottom then Following(cursor, scanline, row) else
                  scanline == scanline0 && Following(cursor, scanline, rect.top) && Passed(cursor, rect.top)
        invariant rect.bottom <= rect.top ==> bitmap[..] == old(bitmap[..])
        invariant Painted(bitmap[..], was, Extent(), Frame(rect, true, row, row, false), 0, rect.left, clip.data,
                          pattern, mode)
      {
        var swatch := Swatch(pattern, row, rect.left);
        FrameGrows(rect, row);
        scanline := PaintNextRow(cursor, scanline, row, rect.left, rect.left + 1, swatch, mode,
                                 was, Frame(rect, true, row, row, false), Frame(rect, true, row + 1, row, false),
                                 0, rect.left, pattern);
        PaintRow(scanline, row, rect.right - 1, rect.right, swatch, mode,
                 was, Frame(rect, true, row + 1, row, false), Frame(rect, true, row + 1, row + 1, false),
                 0, rect.left, pattern);
        FollowingLater(cursor, scanline, row, row + 1);
        row := row + 1;
      }
      if rect.bottom == rect.top + 1 {
        FrameBottom(rect);
        PaintedSame(bitmap[..], was, Extent(), Frame(rect, true, rect.top + 1, rect.top + 1, false),
                    Frame(rect, true, rect.top, rect.top, false), 0, rect.left, clip.data, pattern, mode);
      }
    }

    /** Paints a run of one row with a cursor of its own. */
    method FillRowAt(row: int, start: int, end: int, pattern: Byte, mode: FillMode)
      requires Valid()
      modifies bitmap
      ensures RowPainted(bitmap[..], old(bitmap[..]), Extent(), row, start, end,
                         if clip.rect.top <= row < clip.rect.bottom then LineAt(Decode(clip.data), row)
                             else [], pattern, mode)
    {
      hide *;
      SizeFits();
      NoRowPainted(bitmap[..], Extent(), row, start, end, pattern, mode);
      if row < clip.rect.top || row >= clip.rect.bottom {
        return;
      }
      var cursor := StartCursor();
      var scanline := Advance(cursor, [], row);
      ClipRow(row);
      FillRow(row, start, end, scanline, pattern, mode);
    }

    /** One row of an ellipse. */
    method PaintEllipseRow(row: int, start: int, end: int, index: int, rect: Rect, pattern: seq<Byte>,
                           ghost was: seq<Byte>, ghost s: Shape, ghost s': Shape)
      requires Valid() && |pattern| == 8 && index == row - rect.top
      requires Painted(bitmap[..], was, Extent(), s, rect.top, rect.left, clip.data, pattern, Copy)
      requires Grows(s, s', row, start, end)
      modifies bitmap
      ensures Painted(bitmap[..], was, Extent(), s', rect.top, rect.left, clip.data, pattern, Copy)
    {
      hide *;
      ClipIsOn();
      ghost var now := bitmap[..];
      var swatch := Swatch(pattern, index, rect.left);
      FillRowAt(row, start, end, swatch, Copy);
      RowOfShape(bitmap[..], now, was, Extent(), s, s', rect.top, rect.left, clip, row, start, end,
                 if clip.rect.top <= row < clip.rect.bottom then LineAt(Decode(clip.data), row)
                     else [], pattern, Copy, swatch);
    }

    /** Fills the ellipse inscribed in `rect`. All its rows together take at most `halfWidth + halfHeight` steps of the
        scan. Where its 32-bit arithmetic overflows the original is undefined, and the model stops. */
    method FillEllipse(rect: Rect, pattern: seq<Byte>) returns (defined: bool, ghost steps: nat)
      requires Valid() && |pattern| == 8 && ValidRect(rect)
      modifies bitmap
      ensures defined <==> ScanFits((rect.right - rect.left) / 2, (rect.bottom - rect.top) / 2)
      ensures defined ==>
                var halfHeight := (rect.bottom - rect.top) / 2;
                Painted(bitmap[..], old(bitmap[..]), Extent(), Disc(rect, halfHeight, halfHeight), rect.top, rect.left,
                        clip.data, pattern, Copy)
      ensures defined ==> steps <= (rect.right - rect.left) / 2 + (rect.bottom - rect.top) / 2
    {
      hide *;
      SizeFits();
      ValidExtents(rect);
      ghost var was := bitmap[..];
      var halfWidth := RectWidth(rect) / 2;
      var halfHeight := RectHeight(rect) / 2;
      var originX := rect.left + halfWidth;
      var originY := rect.top + halfHeight;
      var lastOffset := halfWidth;
      var slopeDx := 0;
      steps := 0;
      FitsSoFar(halfWidth, halfHeight);
      if Bound(halfWidth, halfHeight) > INT32_MAX {
        return false, steps;
      }
      DiscCentre(rect);
      NothingPainted(was, Extent(), Disc(rect, 0, -1), rect.top, rect.left, clip.data, pattern, Copy);
      PaintEllipseRow(originY, rect.left, rect.right, halfHeight, rect, pattern, was, Disc(rect, 0, -1),
                      Disc(rect, 0, 0));
      if halfHeight > 0 {
        CentreHalfWidth(halfWidth, halfHeight);
      }
      var row := 1;
      while row <= halfHeight
        invariant 1 <= row <= halfHeight + 1
        invariant forall r :: 1 <= r < row ==> TestFits(r, halfWidth, halfHeight)
        invariant row <= halfHeight ==> IsHalfWidth(lastOffset, row - 1, halfWidth, halfHeight)
        invariant 1 < row <= halfHeight ==> IsHalfWidth(lastOffset + slopeDx, row - 2, halfWidth, halfHeight)
        invariant row == 1 ==> slopeDx == 0
        invariant 0 <= lastOffset <= halfWidth && lastOffset + slopeDx <= halfWidth
        invariant steps == slopeDx + row - 1
        invariant Painted(bitmap[..], was, Extent(), Disc(rect, row - 1, row - 1), rect.top, rect.left, clip.data,
                          pattern, Copy)
      {
        var offset;
        ghost var n;
        defined, offset, n := NextOffset(row, lastOffset, slopeDx, halfWidth, halfHeight);
        if !defined {
          return;
        }
        NarrowerThanCentre(offset, row, halfWidth, halfHeight);
        DiscRow(rect, row, offset);
        PaintEllipseRow(originY - row, originX - offset, originX + offset, halfHeight - row, rect, pattern,
                        was, Disc(rect, row - 1, row - 1), Disc(rect, row, row - 1));
        PaintEllipseRow(originY + row, originX - offset, originX + offset, halfHeight + row, rect, pattern,
                        was, Disc(rect, row, row - 1), Disc(rect, row, row));
        steps := steps + n;
        slopeDx := lastOffset - offset;
        lastOffset := offset;
        row := row + 1;
      }
      defined := true;
    }

    /** Copies the part of one row of a source image that `scanline` covers. */
    method CopyRow(scanline: Line, y: int, start: int, end: int, src: array<Byte>, beyond: Byte, ghost source: Source,
                   srcRowBytes: nat, dx: int, dy: int)
      requires Valid() && Sorted(scanline)
      requires forall x :: Covers(scanline, x) ==> 0 <= x < width && 0 <= y < height
      requires src != bitmap && source.Valid() && src[..] == source.bytes
      requires srcRowBytes == source.e.RowBytes() && dx == source.dx && dy == source.dy
      requires 0 <= y + dy && 0 <= start + dx && source.BitOf(end, y) <= 8 * |source.bytes|
      modifies bitmap
      ensures RowBlitted(bitmap[..], old(bitmap[..]), Extent(), y, start, end, scanline, source)
    {
      hide *;
      ghost var was := bitmap[..];
      SizeFits();
      NoRowBlitted(was, Extent(), y, start, end, source);
      for i := 0 to |scanline|
        invariant src[..] == source.bytes
        invariant RowBlitted(bitmap[..], was, Extent(), y, start, end, scanline[..i], source)
      {
        var lo := Max(start, scanline[i].start);
        var hi := Min(end, scanline[i].end);
        ghost var now := bitmap[..];
        CopyRange(y, start, end, scanline, i, lo, hi, src, beyond, source, srcRowBytes, dx, dy);
        RangeBlitted(bitmap[..], now, was, Extent(), y, start, end, scanline, i, lo, hi, source);
      }
      assert scanline[..|scanline|] == scanline;
    }

    method CopyRange(y: int, start: int, end: int, ghost scanline: Line, ghost i: nat, lo: int, hi: int,
                     src: array<Byte>, beyond: Byte, ghost source: Source, srcRowBytes: nat, dx: int, dy: int)
      requires Valid() && i < |scanline| && lo == Max(start, scanline[i].start) && hi == Min(end, scanline[i].end)
      requires forall x :: Covers(scanline, x) ==> 0 <= x < width && 0 <= y < height
      requires src != bitmap && source.Valid() && src[..] == source.bytes
      requires srcRowBytes == source.e.RowBytes() && dx == source.dx && dy == source.dy
      requires 0 <= y + dy && 0 <= start + dx && source.BitOf(end, y) <= 8 * |source.bytes|
      modifies bitmap
      ensures RangeCopied(bitmap[..], old(bitmap[..]), Extent(), y, lo, hi, source)
    {
      hide *;
      if lo >= hi {
        RangeIsEmpty(bitmap[..], Extent(), y, lo, hi, source);
        return;
      }
      ghost var now := bitmap[..];
      SizeFits();
      RowBytesIs();
      SourceIsValid(source);
      InRangeOf(start, end, scanline[i], lo, hi);
      InsideImage(scanline, i, lo, hi, width, height, y);
      SourceBits(source, y, lo, hi, end);
      BitArrayCopy(src, srcRowBytes * (y + dy), lo + dx, hi - lo, bitmap, PixelWidthToBytes(width) * y, lo, beyond);
      RangeIsCopied(bitmap[..], now, Extent(), y, lo, hi, source,
                    8 * (PixelWidthToBytes(width) * y) + lo, 8 * (srcRowBytes * (y + dy)) + (lo + dx));
    }

    /** Copies `srcRect` of a source image to `dstRect`, clipped. `beyond` is the byte that follows the source in
        memory. */
    method CopyBits(src: array<Byte>, srcDims: Rect, srcRect: Rect, dstRect: Rect, beyond: Byte)
      requires Valid() && src != bitmap
      requires SourceRect(srcDims) && src.Length == SourceExtent(srcDims).Size()
      requires ValidRect(dstRect) && InMemory(srcRect, SourceExtent(srcDims))
      requires srcRect.bottom - srcRect.top == dstRect.bottom - dstRect.top
      requires srcRect.right - srcRect.left == dstRect.right - dstRect.left
      requires ClipOffsetsFit(clip.rect, dstRect)
      modifies bitmap
      ensures Blitted(bitmap[..], old(bitmap[..]), Extent(), dstRect, clip.data,
                      Source(src[..], SourceExtent(srcDims), srcRect.left - dstRect.left, srcRect.top - dstRect.top))
    {
      hide *;
      ghost var was := bitmap[..];
      ghost var source := Source(src[..], SourceExtent(srcDims), srcRect.left - dstRect.left,
                                 srcRect.top - dstRect.top);
      SourceIsValid(source);
      SizeFits();
      ClipIsOn();
      var height, width' := RectHeight(dstRect), RectWidth(dstRect);
      var offTop := ToInt16(Max(0, clip.rect.top - dstRect.top));
      var offBottom := ToInt16(Max(0, dstRect.bottom - clip.rect.bottom));
      var offLeft := ToInt16(Max(0, clip.rect.left - dstRect.left));
      var offRight := ToInt16(Max(0, dstRect.right - clip.rect.right));
      var clippedHeight := ToInt16(height - (offTop + offBottom));
      var clippedWidth := ToInt16(width' - (offLeft + offRight));
      ClipArithmetic(clip, Extent(), dstRect, offTop, offBottom, offLeft, offRight, clippedHeight, clippedWidth);
      if clippedHeight <= 0 || clippedWidth <= 0 {
        NothingBlitted(was, Extent(), dstRect, clip.data, source);
        return;
      }
      ghost var inner := Rect(dstRect.top + offTop, dstRect.left + offLeft,
                              dstRect.top + offTop + clippedHeight, dstRect.left + offLeft + clippedWidth);
      var srcWidth := RectWidth(srcDims);
      SourceRows(srcDims, srcRect, dstRect, inner, source);
      var cursor := StartCursor();
      var scanline: Line := [];
      var row := 0;
      EmptyTop(inner);
      NothingBlitted(was, Extent(), inner.(bottom := inner.top), clip.data, source);
      while row < clippedHeight
        invariant 0 <= row <= clippedHeight
        invariant fresh(cursor) && Following(cursor, scanline, inner.top + row)
        invariant src[..] == source.bytes
        invariant Blitted(bitmap[..], was, Extent(), inner.(bottom := inner.top + row), clip.data, source)
      {
        var y := row + dstRect.top + offTop;
        scanline := Advance(cursor, scanline, y);
        ClipRow(y);
        ghost var now := bitmap[..];
        assert source.BitOf(inner.right, y) <= 8 * |source.bytes|;
        CopyRow(scanline, y, dstRect.left + offLeft, dstRect.left + offLeft + clippedWidth, src, beyond, source,
                PixelWidthToBytes(srcWidth), srcRect.left - dstRect.left, srcRect.top - dstRect.top);
        RowOfBlit(bitmap[..], now, was, Extent(), inner, clip.data, row, scanline, source);
        FollowingLater(cursor, scanline, y, y + 1);
        row := row + 1;
      }
      BlitWithin(bitmap[..], was, Extent(), inner, dstRect, clip.data, source);
    }

    /** Copies part of another image. */
    method CopyBitmap(other: BitmapImage, srcRect: Rect, dstRect: Rect, beyond: Byte)
      requires Valid() && other.Valid() && other.bitmap != bitmap
      requires ValidRect(dstRect) && InMemory(srcRect, other.Extent())
      requires srcRect.bottom - srcRect.top == dstRect.bottom - dstRect.top
      requires srcRect.right - srcRect.left == dstRect.right - dstRect.left
      requires ClipOffsetsFit(clip.rect, dstRect)
      modifies bitmap
      ensures Blitted(bitmap[..], old(bitmap[..]), Extent(), dstRect, clip.data,
                      Source(other.bitmap[..], other.Extent(), srcRect.left - dstRect.left, srcRect.top - dstRect.top))
    {
      var srcDims := NewRect(0, 0, other.width, other.height);
      hide Blitted, ClipFits;
      CopyBits(other.bitmap, srcDims, srcRect, dstRect, beyond);
    }
  }

  /** A clip set for the length of a scope, and put back at its end. */
  class TempClipRect {
    const screen: BitmapImage
    const saved: Region

    constructor (screen: BitmapImage, clipRegion: Region)
      requires screen.Valid() && Readable(clipRegion.data)
      modifies screen
      ensures this.screen == screen && saved == old(screen.clip) && screen.Valid()
      ensures forall x, y :: Contains(screen.clip.data, x, y)
                             <==> Contains(clipRegion.data, x, y) && 0 <= x < screen.width && 0 <= y < screen.height
      ensures screen.clip.data != [] ==> screen.clip.rect.bottom == Max(EndY(clipRegion.data), screen.height)
      ensures screen.clip.data != [] && Canonical(clipRegion.data) && 0 < screen.width && 0 < screen.height ==>
                Attains(screen.clip.rect, screen.clip.data)
    {
      this.screen := screen;
      this.saved := screen.clip;
      new;
      screen.SetClipRegion(clipRegion);
    }

    /** The end of the scope. */
    method Close()
      requires screen.Valid() && ClipFits(saved, screen.Extent())
      modifies screen
      ensures screen.Valid()
      ensures forall x, y :: Contains(screen.clip.data, x, y) <==> Contains(saved.data, x, y)
      ensures Canonical(saved.data) && 0 < screen.width && 0 < screen.height ==> screen.clip.data == saved.data
      ensures screen.clip.data != [] ==> screen.clip.rect.bottom == Max(EndY(saved.data), screen.height)
      ensures screen.clip.data != [] && Canonical(saved.data) && 0 < screen.width && 0 < screen.height ==>
                Attains(screen.clip.rect, screen.clip.data)
    {
      hide *;
      FitsIsReadable(saved, screen.Extent());
      screen.RowBytesIs();
      screen.SetClipRegion(saved);
      ClipRestored(saved, screen.Extent(), screen.width, screen.height, screen.clip.data);
    }
  }

  /** Scopes nested to any depth, each with a clip of its own: when the outermost ends, the first clip is back. */
  method NestedScopes(screen: BitmapImage, clips: seq<Region>)
    requires screen.Valid() && forall i :: 0 <= i < |clips| ==> Readable(clips[i].data)
    modifies screen
    ensures screen.Valid()
    ensures forall x, y :: Contains(screen.clip.data, x, y) <==> old(Contains(screen.clip.data, x, y))
    ensures old(Canonical(screen.clip.data)) && 0 < screen.width && 0 < screen.height ==>
              screen.clip.data == old(screen.clip.data)
    decreases |clips|
  {
    if clips != [] {
      ghost var e := screen.Extent();
      screen.ClipIsOn();
      hide Contains, Canonical, Readable, ClipFits, BitmapImage.Valid;
      var scope := new TempClipRect(screen, clips[0]);
      NestedScopes(screen, clips[1..]);
      scope.Close();
    }
  }

  lemma FitsIsReadable(clip: Region, e: Extent)
    requires ClipFits(clip, e)
    ensures Readable(clip.data)
  {
  }

  /** Cutting a clip back to the image it already lies on changes nothing. */
  lemma ClipRestored(saved: Region, e: Extent, width: nat, height: nat, data: seq<int>)
    requires ClipFits(saved, e) && e == Raster.Extent(width, height)
    requires Canonical(saved.data) && 0 < width && 0 < height ==> Canonical(data)
    requires forall x, y :: Contains(data, x, y) <==> Contains(saved.data, x, y) && 0 <= x < width && 0 <= y < height
    ensures forall x, y :: Contains(data, x, y) <==> Contains(saved.data, x, y)
    ensures Canonical(saved.data) && 0 < width && 0 < height ==> data == saved.data
  {
    hide Contains, Canonical, Readable;
    if Canonical(saved.data) && 0 < width && 0 < height {
      CanonicalUnique(data, saved.data);
    }
  }

  function SourceExtent(dims: Rect): Extent
    requires SourceRect(dims)
  {
    Raster.Extent(dims.right, dims.bottom)
  }

  /** The bounds of a source image: its top left corner is the origin. */
  predicate SourceRect(dims: Rect) {
    dims.top == 0 && dims.left == 0 && 0 <= dims.right <= INT16_MAX && 0 <= dims.bottom <= INT16_MAX
  }

  /** A rect in memory laid out in rows: the last pixel of its last row is there, whatever row it belongs to. */
  predicate InMemory(r: Rect, e: Extent) {
    && 0 <= r.top && 0 <= r.left && IsInt16(r.bottom) && IsInt16(r.right)
    && (!EmptyRect(r) ==> 8 * (e.RowBytes() * (r.bottom - 1)) + r.right <= 8 * e.Size())
  }

  predicate Inside(r: Rect, dims: Rect) {
    dims.top <= r.top && dims.left <= r.left && r.bottom <= dims.bottom && r.right <= dims.right
  }

  /** How far the rect sticks out of the clip's bounding rect on each side fits in 16 bits. */
  predicate ClipOffsetsFit(clip: Rect, dst: Rect) {
    && Max(0, clip.top - dst.top) <= INT16_MAX && Max(0, dst.bottom - clip.bottom) <= INT16_MAX
    && Max(0, clip.left - dst.left) <= INT16_MAX && Max(0, dst.right - clip.right) <= INT16_MAX
  }

  lemma RangeIsEmpty(now: seq<Byte>, e: Extent, row: int, lo: int, hi: int, source: Source)
    requires source.Valid() && hi <= lo
    ensures RangeCopied(now, now, e, row, lo, hi, source)
  {
  }

  lemma InRangeOf(start: int, end: int, r: Range, lo: int, hi: int)
    requires lo == Max(start, r.start) && hi == Min(end, r.end)
    ensures start <= lo && r.start <= lo && hi <= end && hi <= r.end
  {
  }

  lemma SourceBits(source: Source, y: int, lo: int, hi: int, end: int)
    requires 0 <= y + source.dy && 0 <= lo + source.dx && lo < hi <= end
    requires source.BitOf(end, y) <= 8 * |source.bytes|
    ensures 0 <= source.e.RowBytes() * (y + source.dy)
    ensures source.BitOf(lo, y) == 8 * (source.e.RowBytes() * (y + source.dy)) + (lo + source.dx)
    ensures source.BitOf(hi, y) == 8 * (source.e.RowBytes() * (y + source.dy)) + (hi + source.dx)
    ensures 0 <= source.BitOf(lo, y) && source.BitOf(hi, y) <= 8 * |source.bytes|
  {
    MoreRows(source.e.RowBytes(), 0, y + source.dy);
  }

  lemma SourceIsValid(source: Source)
    ensures source.Valid() <==> |source.bytes| == source.e.Size()
  {
  }

  lemma EmptyTop(inner: Rect)
    ensures forall x, y :: !PointInRect(x, y, inner.(bottom := inner.top))
  {
  }

  /** The clipped extents, and that they leave out nothing of the clip. */
  lemma ClipArithmetic(clip: Region, e: Extent, dst: Rect, offTop: int, offBottom: int, offLeft: int, offRight: int,
                       clippedHeight: int, clippedWidth: int)
    requires ClipFits(clip, e) && ValidRect(dst) && ClipOffsetsFit(clip.rect, dst)
    requires offTop == ToInt16(Max(0, clip.rect.top - dst.top))
             && offBottom == ToInt16(Max(0, dst.bottom - clip.rect.bottom))
    requires offLeft == ToInt16(Max(0, clip.rect.left - dst.left))
             && offRight == ToInt16(Max(0, dst.right - clip.rect.right))
    requires clippedHeight == ToInt16(RectHeight(dst) - (offTop + offBottom))
    requires clippedWidth == ToInt16(RectWidth(dst) - (offLeft + offRight))
    ensures dst.top <= dst.top + offTop && dst.left <= dst.left + offLeft
    ensures 0 < clippedHeight ==> dst.top + offTop + clippedHeight <= dst.bottom
    ensures 0 < clippedWidth ==> dst.left + offLeft + clippedWidth <= dst.right
    ensures var inner := Rect(dst.top + offTop, dst.left + offLeft, dst.top + offTop + clippedHeight,
                              dst.left + offLeft + clippedWidth);
            forall x, y :: Contains(clip.data, x, y) ==> (PointInRect(x, y, inner) <==> PointInRect(x, y, dst))
    ensures clippedHeight <= 0 || clippedWidth <= 0 ==>
              forall x, y :: PointInRect(x, y, dst) ==> !Contains(clip.data, x, y)
  {
    assert forall x, y :: Contains(clip.data, x, y) ==> PointInRect(x, y, clip.rect);
    hide Contains, Readable;
    ValidExtents(dst);
    hide RectHeight, RectWidth;
    assert IsInt16(dst.bottom - dst.top - (Max(0, clip.rect.top - dst.top) + Max(0, dst.bottom - clip.rect.bottom)));
    assert IsInt16(dst.right - dst.left - (Max(0, clip.rect.left - dst.left) + Max(0, dst.right - clip.rect.right)));
  }

  lemma SourceRows(dims: Rect, srcRect: Rect, dst: Rect, inner: Rect, source: Source)
    requires SourceRect(dims) && source.e == SourceExtent(dims) && source.Valid() && InMemory(srcRect, source.e)
    requires source.dx == srcRect.left - dst.left && source.dy == srcRect.top - dst.top
    requires srcRect.bottom - srcRect.top == dst.bottom - dst.top
             && srcRect.right - srcRect.left == dst.right - dst.left
    requires Inside(inner, dst) && inner.left < inner.right
    ensures RectWidth(dims) == dims.right >= 0 && source.e.RowBytes() == PixelWidthToBytes(dims.right)
    ensures 0 <= inner.left + source.dx
    ensures forall y :: inner.top <= y < inner.bottom ==>
                          0 <= y + source.dy && source.BitOf(inner.right, y) <= 8 * |source.bytes|
  {
    forall y | inner.top <= y < inner.bottom
      ensures 0 <= y + source.dy && source.BitOf(inner.right, y) <= 8 * |source.bytes|
    {
      MoreRows(source.e.RowBytes(), y + source.dy, srcRect.bottom - 1);
    }
  }

  lemma FrameGrows(rect: Rect, row: int)
    requires rect.top < row
    ensures NoHits(Frame(rect, false, rect.top + 1, rect.top + 1, false))
    ensures Grows(Frame(rect, false, rect.top + 1, rect.top + 1, false),
                  Frame(rect, true, rect.top + 1, rect.top + 1, false),
                  rect.top, rect.left, rect.right)
    ensures Grows(Frame(rect, true, row, row, false), Frame(rect, true, row + 1, row, false), row, rect.left,
                  rect.left + 1)
    ensures Grows(Frame(rect, true, row + 1, row, false), Frame(rect, true, row + 1, row + 1, false), row,
                  rect.right - 1, rect.right)
  {
  }

  lemma FrameBottom(rect: Rect)
    requires rect.top < rect.bottom
    ensures var row := rect.bottom - 1;
            && Grows(Frame(rect, true, row, row, false), Frame(rect, true, row, row, true), row, rect.left, rect.right)
            && (row == rect.top ==> SameHits(Frame(rect, true, row + 1, row + 1, false),
                                             Frame(rect, true, row, row, false)))
  {
  }

  /** The pixels a frame without height paints. The clip counts for the row they lie on only through its bounds. */
  ghost predicate OnFlatFrame(rect: Rect, clip: Region, x: int, y: int) {
    && rect.left <= x < rect.right && Contains(clip.data, x, rect.top)
    && (y == rect.top || (y == rect.bottom - 1 && clip.rect.top <= y < clip.rect.bottom))
  }

  ghost predicate FlatFramed(now: seq<Byte>, was: seq<Byte>, e: Extent, rect: Rect, clip: Region, pattern: seq<Byte>,
                             mode: FillMode)
    requires |pattern| == 8
  {
    && |now| == |was| == e.Size()
    && forall x, y :: e.Has(x, y) ==> FlatPixel(now, was, e, rect, clip, pattern, mode, x, y)
  }

  ghost predicate FlatPixel(now: seq<Byte>, was: seq<Byte>, e: Extent, rect: Rect, clip: Region, pattern: seq<Byte>,
                            mode: FillMode, x: int, y: int)
    requires |pattern| == 8 && |now| == |was| == e.Size() && e.Has(x, y)
  {
    Pixel(now, e, x, y)
    == if OnFlatFrame(rect, clip, x, y) then Combine(mode, Pixel(was, e, x, y), Ink(pattern, 0, rect.left, x, y))
       else Pixel(was, e, x, y)
  }

  lemma FlatFrame(after: seq<Byte>, now: seq<Byte>, was: seq<Byte>, e: Extent, rect: Rect, clip: Region, line: Line,
                  pattern: seq<Byte>, mode: FillMode, swatch: Byte)
    requires |pattern| == 8 && rect.bottom <= rect.top
    requires Painted(now, was, e, Frame(rect, true, rect.top + 1, rect.top + 1, false), 0, rect.left, clip.data,
                     pattern, mode)
    requires swatch == Swatch(pattern, rect.bottom - 1, rect.left)
    requires line == if clip.rect.top <= rect.bottom - 1 < clip.rect.bottom then LineAt(Decode(clip.data), rect.top)
                     else []
    requires RowPainted(after, now, e, rect.bottom - 1, rect.left, rect.right, line, swatch, mode)
    ensures FlatFramed(after, was, e, rect, clip, pattern, mode)
  {
    var top := Frame(rect, true, rect.top + 1, rect.top + 1, false);
    hide Pixel, Ink, Bit, Covers, LineAt, Decode, Swatch, CombineTimes, Combine, Hits;
    forall x, y | e.Has(x, y) ensures FlatPixel(after, was, e, rect, clip, pattern, mode, x, y) {
      assert ShapePixel(now, was, e, top, 0, rect.left, clip.data, pattern, mode, x, y);
      assert RowPixel(after, now, e, rect.bottom - 1, rect.left, rect.right, line, swatch, mode, x, y);
      TopHits(rect, x, y);
      PaintedOnce(mode, Pixel(was, e, x, y), Ink(pattern, 0, rect.left, x, y),
                  y == rect.top && rect.left <= x < rect.right);
      SwatchInk(pattern, rect.bottom - 1, rect.left, x);
      NothingCovered(x);
    }
  }

  lemma NothingCovered(x: int)
    ensures !Covers([], x)
  {
  }

  lemma TopHits(rect: Rect, x: int, y: int)
    ensures Hits(Frame(rect, true, rect.top + 1, rect.top + 1, false), x, y)
            == One(y == rect.top && rect.left <= x < rect.right)
  {
  }

  lemma SwatchInk(pattern: seq<Byte>, row: int, left: int, x: int)
    requires |pattern| == 8 && 0 <= x
    ensures Bit(Swatch(pattern, row, left), x % 8) == Ink(pattern, 0, left, x, row)
  {
    SwatchBit(pattern[row % 8], Max(0, left), x);
  }

  lemma DiscCentre(rect: Rect)
    requires ValidRect(rect)
    ensures NoHits(Disc(rect, 0, -1))
    ensures Grows(Disc(rect, 0, -1), Disc(rect, 0, 0), rect.top + (rect.bottom - rect.top) / 2, rect.left, rect.right)
  {
  }

  lemma FitsSoFar(halfWidth: nat, halfHeight: nat)
    ensures ScanFits(halfWidth, halfHeight) <==>
            && Bound(halfWidth, halfHeight) <= INT32_MAX
            && forall row :: 1 <= row <= halfHeight ==> TestFits(row, halfWidth, halfHeight)
  {
  }

  lemma DiscRow(rect: Rect, row: int, offset: int)
    requires 1 <= row && IsHalfWidth(offset, row, (rect.right - rect.left) / 2, (rect.bottom - rect.top) / 2)
    ensures var x0, y0 := rect.left + (rect.right - rect.left) / 2, rect.top + (rect.bottom - rect.top) / 2;
            && Grows(Disc(rect, row - 1, row - 1), Disc(rect, row, row - 1), y0 - row, x0 - offset, x0 + offset)
            && Grows(Disc(rect, row, row - 1), Disc(rect, row, row), y0 + row, x0 - offset, x0 + offset)
  {
    var x0, y0 := rect.left + (rect.right - rect.left) / 2, rect.top + (rect.bottom - rect.top) / 2;
    var half := Disc(rect, row, row - 1);
    forall x, y ensures Hits(half, x, y)
                        == Hits(Disc(rect, row - 1, row - 1), x, y)
                            + One(y == y0 - row && x0 - offset <= x < x0 + offset)
    {
      DiscPixel(rect, row, row - 1, row, offset, x, y);
    }
    forall x, y ensures Hits(Disc(rect, row, row), x, y)
                        == Hits(Disc(rect, row, row - 1), x, y) + One(y == y0 + row && x0 - offset <= x < x0 + offset)
    {
      DiscPixel(rect, row, row, row, offset, x, y);
    }
    hide InDisc, IsHalfWidth;
  }

  /** On the rows `row` away from the centre, the ellipse is `2 * offset` wide; nothing nearer depends on how far it
      reaches. */
  lemma DiscPixel(rect: Rect, above: int, below: int, row: int, offset: int, x: int, y: int)
    requires 1 <= row && IsHalfWidth(offset, row, (rect.right - rect.left) / 2, (rect.bottom - rect.top) / 2)
    requires above == row && row - 1 <= below <= row
    ensures var x0, y0 := rect.left + (rect.right - rect.left) / 2, rect.top + (rect.bottom - rect.top) / 2;
            && (y == y0 - row ==> (InDisc(rect, above, below, x, y) <==> x0 - offset <= x < x0 + offset))
            && (y == y0 + row ==> (InDisc(rect, above, below, x, y)
                                   <==> below == row && x0 - offset <= x < x0 + offset))
            && (y0 - row < y < y0 + row ==> (InDisc(rect, above, below, x, y)
                                             <==> InDisc(rect, row - 1, row - 1, x, y)))
            && (y < y0 - row || y0 + row < y ==> !InDisc(rect, above, below, x, y))
            && (y <= y0 - row || y0 + row <= y ==> !InDisc(rect, row - 1, row - 1, x, y))
  {
    hide IsHalfWidth;
    EllipseRowIs(x - (rect.left + (rect.right - rect.left) / 2), row, offset,
                 (rect.right - rect.left) / 2, (rect.bottom - rect.top) / 2);
    hide InEllipseRow;
  }

  lemma CountedIs(rect: Rect)
    ensures Counted(rect) == rect.(bottom := rect.top + RectHeight(rect))
    ensures Int16Rect(rect) ==> Counted(rect) == rect
  {
    if Int16Rect(rect) { RectExtents(rect); }
  }

  lemma BoxNone(rect: Rect)
    ensures NoHits(Box(rect.(bottom := rect.top)))
  {
  }

  lemma BoxRows(rect: Rect, row: nat)
    ensures Grows(Box(rect.(bottom := rect.top + row)), Box(rect.(bottom := rect.top + row + 1)), rect.top + row,
                  rect.left, rect.right)
  {
  }

  lemma BoxDone(rect: Rect, row: nat)
    requires rect.bottom - rect.top == row || (row == 0 && rect.bottom <= rect.top)
    ensures SameHits(Box(rect.(bottom := rect.top + row)), Box(rect))
  {
  }

  /** The line the clip shows on row `y`. */
  lemma ClipLine(clip: Region, e: Extent, y: int)
    requires ClipFits(clip, e)
    ensures var line := LineAt(Decode(clip.data), y);
            Sorted(line) && forall x :: Covers(line, x) ==> 0 <= x < e.width && 0 <= y < e.height
  {
    var line := LineAt(Decode(clip.data), y);
    if line != [] {
      var i := LineAtSource(Decode(clip.data), y);
    }
    forall x | Covers(line, x) ensures 0 <= x < e.width && 0 <= y < e.height {
      assert Contains(clip.data, x, y);
    }
  }

  lemma PaintedSame(now: seq<Byte>, was: seq<Byte>, e: Extent, s: Shape, s': Shape, inkTop: int, inkLeft: int,
                 clip: seq<int>, pattern: seq<Byte>, mode: FillMode)
    requires |pattern| == 8 && Painted(now, was, e, s, inkTop, inkLeft, clip, pattern, mode)
    requires SameHits(s, s')
    ensures Painted(now, was, e, s', inkTop, inkLeft, clip, pattern, mode)
  {
    hide Pixel, Contains, Hits, Ink;
    forall x, y | e.Has(x, y) ensures ShapePixel(now, was, e, s', inkTop, inkLeft, clip, pattern, mode, x, y) {
      assert ShapePixel(now, was, e, s, inkTop, inkLeft, clip, pattern, mode, x, y);
      assert Hits(s, x, y) == Hits(s', x, y);
    }
  }

  lemma InsideImage(line: Line, i: nat, lo: int, hi: int, width: nat, height: nat, row: int)
    requires i < |line| && line[i].start <= lo < hi <= line[i].end
    requires forall x :: Covers(line, x) ==> 0 <= x < width && 0 <= row < height
    ensures 0 <= lo && hi <= width && 0 <= row < height
    ensures hi <= 8 * PixelWidthToBytes(width)
    ensures 8 * (PixelWidthToBytes(width) * row) + hi <= 8 * (PixelWidthToBytes(width) * height)
  {
    assert InRange(line[i], lo) && InRange(line[i], hi - 1);
    assert Covers(line, lo) && Covers(line, hi - 1);
    RowsFit(PixelWidthToBytes(width), row, height);
  }
}
