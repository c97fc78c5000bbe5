/** What copying one image into another means (`BitmapImage::CopyBits`, `emu/graphics/bitmap_image.cc`). */
module Blits {
  import opened Geometry
  import opened Scanlines
  import opened Regions
  import opened Bits
  import opened BitCopy
  import opened Raster

  /** Where a copy takes its pixels from: each comes from (dx, dy) further along in the source. */
  datatype Source = Source(bytes: seq<Byte>, e: Extent, dx: int, dy: int) {
    ghost predicate Valid() { |bytes| == e.Size() }

    /** Which bit of memory pixel (x, y) is copied from. A column past the end of a row runs on into the next. */
    function BitOf(x: int, y: int): int {
      8 * (e.RowBytes() * (y + dy)) + (x + dx)
    }

    ghost predicate Shows(x: int, y: int) {
      0 <= BitOf(x, y) < 8 * |bytes| && PixelAt(bytes, BitOf(x, y))
    }
  }

  lemma ShowsPixel(src: Source, x: int, y: int)
    requires src.Valid() && src.e.Has(x + src.dx, y + src.dy)
    ensures src.Shows(x, y) == Pixel(src.bytes, src.e, x + src.dx, y + src.dy)
  {
    IndexBound(src.e, x + src.dx, y + src.dy);
  }

  /** `now` is `was` with the part of `dst` inside the clip replaced by the source. */
  ghost predicate Blitted(now: seq<Byte>, was: seq<Byte>, e: Extent, dst: Rect, clip: seq<int>, src: Source)
    requires src.Valid()
  {
    && |now| == |was| == e.Size()
    && forall x, y :: e.Has(x, y) ==> BlitPixel(now, was, e, dst, clip, src, x, y)
  }

  ghost predicate BlitPixel(now: seq<Byte>, was: seq<Byte>, e: Extent, dst: Rect, clip: seq<int>, src: Source, x: int,
                            y: int)
    requires src.Valid() && |now| == |was| == e.Size() && e.Has(x, y)
  {
    Pixel(now, e, x, y)
    == if PointInRect(x, y, dst) && Contains(clip, x, y) then src.Shows(x, y) else Pixel(was, e, x, y)
  }

  /** A copy from `srcRect`, pixel by pixel: in the clip, `dst` shows what the source shows at the same place of
      `srcRect`, and nothing else changes. */
  lemma BlitShows(now: seq<Byte>, was: seq<Byte>, e: Extent, srcBytes: seq<Byte>, srcE: Extent, srcRect: Rect,
                  dst: Rect, clip: seq<int>)
    requires |srcBytes| == srcE.Size()
    requires Blitted(now, was, e, dst, clip, Source(srcBytes, srcE, srcRect.left - dst.left, srcRect.top - dst.top))
    ensures |now| == |was| == e.Size()
    ensures forall x, y :: e.Has(x, y) && PointInRect(x, y, dst) && Contains(clip, x, y)
                           && srcE.Has(srcRect.left + (x - dst.left), srcRect.top + (y - dst.top)) ==>
              Pixel(now, e, x, y) == Pixel(srcBytes, srcE, srcRect.left + (x - dst.left), srcRect.top + (y - dst.top))
    ensures forall x, y :: e.Has(x, y) && !(PointInRect(x, y, dst) && Contains(clip, x, y)) ==>
              Pixel(now, e, x, y) == Pixel(was, e, x, y)
  {
    var src := Source(srcBytes, srcE, srcRect.left - dst.left, srcRect.top - dst.top);
    hide Pixel, Contains, PointInRect, Source.Shows;
    forall x, y | e.Has(x, y)
      ensures PointInRect(x, y, dst) && Contains(clip, x, y)
              && srcE.Has(srcRect.left + (x - dst.left), srcRect.top + (y - dst.top)) ==>
                Pixel(now, e, x, y) == Pixel(srcBytes, srcE, srcRect.left + (x - dst.left), srcRect.top + (y - dst.top))
      ensures !(PointInRect(x, y, dst) && Contains(clip, x, y)) ==> Pixel(now, e, x, y) == Pixel(was, e, x, y)
    {
      assert BlitPixel(now, was, e, dst, clip, src, x, y);
      if srcE.Has(srcRect.left + (x - dst.left), srcRect.top + (y - dst.top)) {
        ShowsPixel(src, x, y);
      }
    }
  }

  /** `now` is `was` with the covered pixels of a run of row `row` replaced by the source. */
  ghost predicate RowBlitted(now: seq<Byte>, was: seq<Byte>, e: Extent, row: int, start: int, end: int, line: Line,
                             src: Source)
    requires src.Valid()
  {
    && |now| == |was| == e.Size()
    && forall x, y :: e.Has(x, y) ==> RowBlitPixel(now, was, e, row, start, end, line, src, x, y)
  }

  ghost predicate RowBlitPixel(now: seq<Byte>, was: seq<Byte>, e: Extent, row: int, start: int, end: int, line: Line,
                               src: Source, x: int, y: int)
    requires src.Valid() && |now| == |was| == e.Size() && e.Has(x, y)
  {
    Pixel(now, e, x, y)
    == if y == row && start <= x < end && Covers(line, x) then src.Shows(x, y) else Pixel(was, e, x, y)
  }

  lemma NoRowBlitted(was: seq<Byte>, e: Extent, row: int, start: int, end: int, src: Source)
    requires src.Valid() && |was| == e.Size()
    ensures RowBlitted(was, was, e, row, start, end, [], src)
  {
  }

  /** The bits of one clipped range, as `BitArrayCopy` left them. */
  ghost predicate RangeCopied(after: seq<Byte>, now: seq<Byte>, e: Extent, row: int, lo: int, hi: int, src: Source)
    requires src.Valid()
  {
    if hi <= lo then after == now else
      && 0 <= row < e.height && 0 <= lo && hi <= 8 * e.RowBytes() && |now| == e.Size()
      && 0 <= src.BitOf(lo, row) && src.BitOf(hi, row) <= 8 * |src.bytes|
      && RunFits(e, row, lo, hi)
      && Copied(after, now, e.Index(lo, row), src.bytes, src.BitOf(lo, row), hi - lo)
  }

  lemma RangeIsCopied(after: seq<Byte>, now: seq<Byte>, e: Extent, row: int, lo: int, hi: int, src: Source, dstAt: nat,
                      srcAt: nat)
    requires src.Valid() && lo < hi && |now| == e.Size()
    requires 0 <= row < e.height && 0 <= lo && hi <= 8 * e.RowBytes()
    requires 0 <= src.BitOf(lo, row) && src.BitOf(hi, row) <= 8 * |src.bytes|
    requires dstAt == 8 * (e.RowBytes() * row) + lo && srcAt == src.BitOf(lo, row)
    requires dstAt + (hi - lo) <= 8 * |now| && srcAt + (hi - lo) <= 8 * |src.bytes|
    requires Copied(after, now, dstAt, src.bytes, srcAt, hi - lo)
    ensures RangeCopied(after, now, e, row, lo, hi, src)
  {
    hide Copied, Extent.RowBytes, Extent.Size;
  }

  lemma RangeBlitted(after: seq<Byte>, now: seq<Byte>, was: seq<Byte>, e: Extent, row: int, start: int, end: int,
                     line: Line, i: nat, lo: int, hi: int, src: Source)
    requires src.Valid() && Sorted(line) && i < |line|
    requires RowBlitted(now, was, e, row, start, end, line[..i], src)
    requires lo == Max(start, line[i].start) && hi == Min(end, line[i].end)
    requires RangeCopied(after, now, e, row, lo, hi, src)
    ensures RowBlitted(after, was, e, row, start, end, line[..i + 1], src)
  {
    hide RowBlitPixel, Covers, Apart, PixelAt, Bit, Source.Shows;
    forall x, y | e.Has(x, y) ensures RowBlitPixel(after, was, e, row, start, end, line[..i + 1], src, x, y) {
      RangeBlitPixel(after, now, was, e, row, start, end, line, i, lo, hi, src, x, y);
    }
  }

  lemma RangeBlitPixel(after: seq<Byte>, now: seq<Byte>, was: seq<Byte>, e: Extent, row: int, start: int, end: int,
                       line: Line, i: nat, lo: int, hi: int, src: Source, x: int, y: int)
    requires src.Valid() && Sorted(line) && i < |line| && |after| == |now| == |was| == e.Size() && e.Has(x, y)
    requires RowBlitPixel(now, was, e, row, start, end, line[..i], src, x, y)
    requires lo == Max(start, line[i].start) && hi == Min(end, line[i].end)
    requires RangeCopied(after, now, e, row, lo, hi, src)
    ensures RowBlitPixel(after, was, e, row, start, end, line[..i + 1], src, x, y)
  {
    hide Covers, Apart, PixelAt, Bit, RangeCopied, Pixel, Source.Shows, Extent.Index, Extent.RowBytes;
    CoversTake(line, i, x);
    CoveredOnce(line, i, x);
    CopiedPixel(after, now, e, row, lo, hi, src, x, y);
  }

  lemma CopiedPixel(after: seq<Byte>, now: seq<Byte>, e: Extent, row: int, lo: int, hi: int, src: Source, x: int,
                    y: int)
    requires src.Valid() && |after| == |now| == e.Size() && e.Has(x, y)
    requires RangeCopied(after, now, e, row, lo, hi, src)
    ensures Pixel(after, e, x, y) == if y == row && lo <= x < hi then src.Shows(x, y) else Pixel(now, e, x, y)
  {
    if lo < hi {
      RunInRow(e, row, lo, hi, x, y);
      hide PixelAt, Extent.RowBytes, Extent.Size;
    }
  }

  /** One more row of the copy. */
  lemma RowOfBlit(after: seq<Byte>, now: seq<Byte>, was: seq<Byte>, e: Extent, dst: Rect, clip: seq<int>, row: nat,
                  line: Line, src: Source)
    requires src.Valid()
    requires Blitted(now, was, e, dst.(bottom := dst.top + row), clip, src)
    requires line == LineAt(Decode(clip), dst.top + row)
    requires RowBlitted(after, now, e, dst.top + row, dst.left, dst.right, line, src)
    ensures Blitted(after, was, e, dst.(bottom := dst.top + row + 1), clip, src)
  {
    hide Pixel, Source.Shows, LineAt, Decode, Covers;
    forall x, y | e.Has(x, y) ensures BlitPixel(after, was, e, dst.(bottom := dst.top + row + 1), clip, src, x, y) {
      assert RowBlitPixel(after, now, e, dst.top + row, dst.left, dst.right, line, src, x, y);
      assert BlitPixel(now, was, e, dst.(bottom := dst.top + row), clip, src, x, y);
    }
  }

  lemma NothingBlitted(was: seq<Byte>, e: Extent, dst: Rect, clip: seq<int>, src: Source)
    requires src.Valid() && |was| == e.Size()
    requires forall x, y :: PointInRect(x, y, dst) ==> !Contains(clip, x, y)
    ensures Blitted(was, was, e, dst, clip, src)
  {
    hide Pixel, Contains;
  }

  /** Only the part of the rect inside the clip's bounding rect matters. */
  lemma BlitWithin(now: seq<Byte>, was: seq<Byte>, e: Extent, inner: Rect, dst: Rect, clip: seq<int>, src: Source)
    requires src.Valid() && Blitted(now, was, e, inner, clip, src)
    requires forall x, y :: Contains(clip, x, y) ==> (PointInRect(x, y, inner) <==> PointInRect(x, y, dst))
    ensures Blitted(now, was, e, dst, clip, src)
  {
    hide Pixel, Contains, Source.Shows;
    forall x, y | e.Has(x, y) ensures BlitPixel(now, was, e, dst, clip, src, x, y) {
      assert BlitPixel(now, was, e, inner, clip, src, x, y);
    }
  }
}
