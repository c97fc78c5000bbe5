/** One-bit images in memory: rows of whole bytes, and what it means to paint part of one. */
module Raster {
  import opened Bits
  import opened BitCopy

  /** `emu/graphics/graphics_helpers.h`: the bytes that hold `width` pixels. */
  function PixelWidthToBytes(width: nat): (n: nat)
    ensures 8 * n >= width && 8 * n < width + 8
  {
    var bytes := width / 8;
    if width % 8 != 0 then bytes + 1 else bytes
  }

  /** Every pixel of memory belongs to some row: `width` of them are visible, the rest pad the last byte. */
  datatype Extent = Extent(width: nat, height: nat) {
    function RowBytes(): nat { PixelWidthToBytes(width) }

    function Size(): nat { RowBytes() * height }

    predicate Has(x: int, y: int) {
      0 <= x < 8 * RowBytes() && 0 <= y < height
    }

    function Index(x: int, y: int): (k: nat)
      requires Has(x, y)
      ensures k < 8 * Size()
    {
      IndexBound(this, x, y);
      8 * (RowBytes() * y) + x
    }
  }

  lemma IndexBound(e: Extent, x: int, y: int)
    requires e.Has(x, y)
    ensures 0 <= e.RowBytes() * y && e.RowBytes() * y + e.RowBytes() <= e.Size()
    ensures 8 * (e.RowBytes() * y) + x < 8 * e.Size()
  {
    RowsFit(e.RowBytes(), y, e.height);
  }

  lemma RowsFit(rowBytes: nat, y: nat, height: nat)
    requires y < height
    ensures rowBytes * y + rowBytes <= rowBytes * height
  {
    MoreRows(rowBytes, y + 1, height);
    assert rowBytes * (y + 1) == rowBytes * y + rowBytes;
  }

  predicate Pixel(bytes: seq<Byte>, e: Extent, x: int, y: int)
    requires |bytes| == e.Size() && e.Has(x, y)
  {
    PixelAt(bytes, e.Index(x, y))
  }

  /** Where a pixel is in memory: rows of whole bytes from the top down, the leftmost pixel in the top bit. */
  lemma PixelIs(bytes: seq<Byte>, e: Extent, x: int, y: int)
    requires |bytes| == e.Size() && e.Has(x, y)
    ensures 0 <= PixelWidthToBytes(e.width) * y + x / 8 < |bytes|
    ensures Pixel(bytes, e, x, y) <==>
            bytes[PixelWidthToBytes(e.width) * y + x / 8]
            & [0x80, 0x40, 0x20, 0x10, 0x08, 0x04, 0x02, 0x01][x % 8] != 0
  {
    hide Bit;
    var at := PixelWidthToBytes(e.width) * y;
    IndexBound(e, x, y);
    assert e.Index(x, y) == 8 * (at + x / 8) + x % 8;
    PixelIndex(bytes, at + x / 8, x % 8);
    BitIs(bytes[at + x / 8], x % 8);
  }

  /** A run of pixels within one row, seen from any pixel. */
  lemma RunInRow(e: Extent, row: int, start: int, end: int, x: int, y: int)
    requires 0 <= row < e.height && 0 <= start <= end <= 8 * e.RowBytes() && e.Has(x, y)
    ensures 8 * (e.RowBytes() * row) + start <= e.Index(x, y) < 8 * (e.RowBytes() * row) + end
            <==> y == row && start <= x < end
  {
    if y < row {
      RowsFit(e.RowBytes(), y, row);
    } else if row < y {
      RowsFit(e.RowBytes(), row, y);
    }
  }

  /** Every bit of memory is some pixel. */
  lemma IndexOnto(e: Extent, k: nat) returns (x: nat, y: nat)
    requires k < 8 * e.Size()
    ensures e.Has(x, y) && e.Index(x, y) == k
  {
    var n := e.RowBytes();
    var stride := 8 * n;
    assert n > 0;
    x, y := k, 0;
    while x >= stride
      invariant k == 8 * (n * y) + x
      invariant 0 <= x && 0 <= y
    {
      assert n * (y + 1) == n * y + n;
      x, y := x - stride, y + 1;
    }
    if y >= e.height {
      MoreRows(n, e.height, y);
    }
  }

  lemma MoreRows(n: nat, a: nat, b: nat)
    requires a <= b
    ensures n * a <= n * b
  {
    assert n * b == n * a + n * (b - a);
  }

  /** Two memories with the same pixels are the same bytes. */
  lemma SamePixels(a: seq<Byte>, b: seq<Byte>, e: Extent)
    requires |a| == |b| == e.Size()
    requires forall x, y :: e.Has(x, y) ==> Pixel(a, e, x, y) == Pixel(b, e, x, y)
    ensures a == b
  {
    forall j | 0 <= j < |a| ensures a[j] == b[j] {
      forall i | 0 <= i < 8 ensures Bit(a[j], i) == Bit(b[j], i) {
        var x, y := IndexOnto(e, 8 * j + i);
        assert Pixel(a, e, x, y) == Pixel(b, e, x, y);
        PixelIndex(a, j, i);
        PixelIndex(b, j, i);
      }
      SameBits(a[j], b[j]);
    }
  }

  // ---- Fill modes -------------------------------------------------------------------------------

  datatype FillMode = Copy | XOr | NotXOr

  predicate Combine(mode: FillMode, was: bool, ink: bool) {
    match mode
    case Copy => ink
    case XOr => was != ink
    case NotXOr => was == ink
  }

  /** A byte with the pixels of `mask` painted. */
  function Blend(mode: FillMode, b: Byte, mask: Byte, pattern: Byte): Byte {
    match mode
    case Copy => (b & !mask) | (mask & pattern)
    case XOr => b ^ (mask & pattern)
    case NotXOr => b ^ (mask & !pattern)
  }

  lemma BlendLogic(b: Byte, k: Byte, p: Byte, m: Byte)
    requires m & (m - 1) == 0 && m != 0
    ensures ((b & !k) | (k & p)) & m != 0 <==> if k & m != 0 then p & m != 0 else b & m != 0
    ensures (b ^ (k & p)) & m != 0 <==> if k & m != 0 then (b & m != 0) != (p & m != 0) else b & m != 0
    ensures (b ^ (k & !p)) & m != 0 <==> if k & m != 0 then (b & m != 0) == (p & m != 0) else b & m != 0
  {
  }

  lemma BlendBit(mode: FillMode, b: Byte, mask: Byte, pattern: Byte, i: nat)
    requires i < 8
    ensures Bit(Blend(mode, b, mask, pattern), i)
            == if Bit(mask, i) then Combine(mode, Bit(b, i), Bit(pattern, i)) else Bit(b, i)
  {
    SinglePixel(i);
    assert PixelMask(i) != 0;
    hide PixelMask;
    BlendLogic(b, mask, pattern, PixelMask(i));
  }

  /** `now` is `was` with `n` pixels from `at` on painted in a pattern that repeats every byte. */
  ghost predicate FilledRun(now: seq<Byte>, was: seq<Byte>, at: nat, n: nat, pattern: Byte, mode: FillMode)
    requires at + n <= 8 * |was|
  {
    && |now| == |was|
    && forall k :: 0 <= k < 8 * |was| ==>
         PixelAt(now, k) == if at <= k < at + n then Combine(mode, PixelAt(was, k), Bit(pattern, k % 8))
             else PixelAt(was, k)
  }

  /** Painting pixels `lo` up to `hi` of byte `d` extends the run. */
  lemma FillByte(now: seq<Byte>, was: seq<Byte>, at: nat, n: nat, pattern: Byte, mode: FillMode,
                 d: nat, mask: Byte, lo: nat, hi: nat)
    requires lo <= hi <= 8 && at + n + (hi - lo) <= 8 * |was|
    requires FilledRun(now, was, at, n, pattern, mode)
    requires d < |was| && at + n == 8 * d + lo
    requires forall i :: 0 <= i < 8 ==> Bit(mask, i) == (lo <= i < hi)
    ensures FilledRun(now[d := Blend(mode, now[d], mask, pattern)], was, at, n + (hi - lo), pattern, mode)
  {
    hide Bit, Blend, PixelAt, Combine;
    var after := now[d := Blend(mode, now[d], mask, pattern)];
    forall k | 0 <= k < 8 * |was|
      ensures PixelAt(after, k)
              == if at <= k < at + n + (hi - lo) then Combine(mode, PixelAt(was, k), Bit(pattern, k % 8))
                 else PixelAt(was, k)
    {
      BlendPixel(now, d, mode, mask, pattern, k);
      if k / 8 == d {
        assert k == 8 * d + k % 8;
      }
    }
  }

  /** Blending one byte paints just the pixels its mask selects. */
  lemma BlendPixel(now: seq<Byte>, d: nat, mode: FillMode, mask: Byte, pattern: Byte, k: nat)
    requires d < |now| && k < 8 * |now|
    ensures PixelAt(now[d := Blend(mode, now[d], mask, pattern)], k)
            == if k / 8 == d && Bit(mask, k % 8) then Combine(mode, PixelAt(now, k), Bit(pattern, k % 8))
                else PixelAt(now, k)
  {
    BlendBit(mode, now[d], mask, pattern, k % 8);
    hide Bit, Blend, Combine;
  }

  lemma NothingFilled(was: seq<Byte>, at: nat, pattern: Byte, mode: FillMode)
    requires at <= 8 * |was|
    ensures FilledRun(was, was, at, 0, pattern, mode)
  {
  }

  /** The run of pixels of row `row` fits the image. */
  predicate RunFits(e: Extent, row: int, lo: int, hi: int)
    requires e.Has(lo, row)
  {
    e.Index(lo, row) + (hi - lo) <= 8 * e.Size()
  }

  lemma RunsFit(e: Extent, row: int, lo: int, hi: int)
    requires 0 <= row < e.height && 0 <= lo < hi <= 8 * e.RowBytes()
    ensures RunFits(e, row, lo, hi)
  {
    IndexBound(e, hi - 1, row);
  }

  /** One clipped range of a row has been painted, if there is anything left of it. */
  ghost predicate RangeFilled(after: seq<Byte>, now: seq<Byte>, e: Extent, row: int, lo: int, hi: int, pattern: Byte,
                              mode: FillMode) {
    if hi <= lo then after == now else
      && 0 <= row < e.height && 0 <= lo && hi <= 8 * e.RowBytes() && |now| == e.Size()
      && RunFits(e, row, lo, hi)
      && FilledRun(after, now, e.Index(lo, row), hi - lo, pattern, mode)
  }

  lemma FilledPixel(after: seq<Byte>, now: seq<Byte>, e: Extent, row: int, lo: int, hi: int, pattern: Byte,
                    mode: FillMode, x: int, y: int)
    requires |after| == |now| == e.Size() && e.Has(x, y)
    requires RangeFilled(after, now, e, row, lo, hi, pattern, mode)
    ensures Pixel(after, e, x, y)
            == if y == row && lo <= x < hi then Combine(mode, Pixel(now, e, x, y), Bit(pattern, x % 8))
               else Pixel(now, e, x, y)
  {
    if lo < hi {
      RunInRow(e, row, lo, hi, x, y);
      IndexColumn(e, x, y);
      hide PixelAt, Bit, Extent.RowBytes, Extent.Size;
    }
  }

  lemma IndexColumn(e: Extent, x: int, y: int)
    requires e.Has(x, y)
    ensures e.Index(x, y) % 8 == x % 8
  {
  }
}
