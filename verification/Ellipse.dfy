/** The integer scan behind `FillEllipse` (`emu/graphics/bitmap_image.cc`): the half width of each row is found by
    counting down from a linear extrapolation of the two rows before it. */
module Ellipses {

  const INT32_MAX := 0x7FFF_FFFF

  /** The sum that the scan compares for column `w` of row `dy`. */
  function Reach(w: int, dy: int, halfWidth: int, halfHeight: int): int {
    w * w * (halfHeight * halfHeight) + dy * dy * (halfWidth * halfWidth)
  }

  /** What the scan compares it with. */
  function Bound(halfWidth: int, halfHeight: int): int {
    (halfHeight * halfHeight) * (halfWidth * halfWidth)
  }

  /** Column `w` of row `dy` lies on or inside the ellipse with the given half axes. */
  predicate InsideEllipse(w: int, dy: int, halfWidth: int, halfHeight: int) {
    Reach(w, dy, halfWidth, halfHeight) <= Bound(halfWidth, halfHeight)
  }

  /** `w` is the greatest column of row `dy` inside the ellipse. */
  ghost predicate IsHalfWidth(w: int, dy: int, halfWidth: int, halfHeight: int) {
    && 0 <= w && InsideEllipse(w, dy, halfWidth, halfHeight)
    && forall v :: w < v ==> !InsideEllipse(v, dy, halfWidth, halfHeight)
  }

  /** Pixel `dx` of row `dy`, both counted from the centre, is filled. */
  ghost predicate InEllipseRow(dx: int, dy: int, halfWidth: int, halfHeight: int) {
    exists w :: IsHalfWidth(w, dy, halfWidth, halfHeight) && -w <= dx < w
  }

  lemma EllipseRowIs(dx: int, dy: int, w: int, halfWidth: int, halfHeight: int)
    requires IsHalfWidth(w, dy, halfWidth, halfHeight)
    ensures InEllipseRow(dx, dy, halfWidth, halfHeight) <==> -w <= dx < w
  {
    if InEllipseRow(dx, dy, halfWidth, halfHeight) {
      var v :| IsHalfWidth(v, dy, halfWidth, halfHeight) && -v <= dx < v;
      HalfWidthUnique(v, w, dy, halfWidth, halfHeight);
    }
  }

  lemma SquareMonotone(a: int, b: int)
    requires 0 <= a <= b
    ensures a * a <= b * b
  {
    assert b * b == a * a + (b - a) * (a + b);
  }

  lemma ProductMonotone(a: int, b: int, k: int)
    requires a <= b && 0 <= k
    ensures a * k <= b * k
  {
  }

  lemma HalfWidthUnique(v: int, w: int, dy: int, halfWidth: int, halfHeight: int)
    requires IsHalfWidth(v, dy, halfWidth, halfHeight) && IsHalfWidth(w, dy, halfWidth, halfHeight)
    ensures v == w
  {
  }

  /** The centre row is as wide as the ellipse. */
  lemma CentreHalfWidth(halfWidth: int, halfHeight: int)
    requires 0 <= halfWidth && 0 < halfHeight
    ensures IsHalfWidth(halfWidth, 0, halfWidth, halfHeight)
  {
    var hh, ww := halfHeight * halfHeight, halfWidth * halfWidth;
    assert hh > 0;
    forall v | halfWidth < v ensures !InsideEllipse(v, 0, halfWidth, halfHeight) {
      SquareMonotone(halfWidth + 1, v);
      assert v * v >= ww + 1;
      ProductMonotone(ww + 1, v * v, hh);
      assert (ww + 1) * hh == ww * hh + hh;
    }
  }

  /** Column zero is inside on every row the ellipse reaches. */
  lemma ColumnZero(dy: int, halfWidth: int, halfHeight: int)
    requires 0 <= dy <= halfHeight
    ensures InsideEllipse(0, dy, halfWidth, halfHeight)
  {
    SquareMonotone(dy, halfHeight);
    ProductMonotone(dy * dy, halfHeight * halfHeight, halfWidth * halfWidth);
  }

  lemma Distribute(a: int, b: int, k: int)
    ensures (a + b) * k == a * k + b * k
  {
  }

  /** If the row above and the row below lie within a bound, so does the middle of their columns. */
  lemma MidpointBound(a2: int, c2: int, n2: int, p2: int, q2: int, r2: int, hh: int, ww: int, bound: int)
    requires 0 <= hh && 0 <= ww
    requires 2 * n2 <= a2 + c2 && p2 + q2 == 2 * r2 + 2
    requires a2 * hh + p2 * ww <= bound && c2 * hh + q2 * ww <= bound
    ensures n2 * hh + r2 * ww <= bound
  {
    ProductMonotone(n2 + n2, a2 + c2, hh);
    Distribute(n2, n2, hh);
    Distribute(a2, c2, hh);
    Distribute(p2, q2, ww);
    Distribute(r2, r2, ww);
    Distribute(r2 + r2, 2, ww);
  }

  lemma SquaresOfSum(a: int, c: int, n: int)
    requires 0 <= n && 2 * n <= a + c
    ensures 2 * (n * n) <= a * a + c * c
  {
    SquareMonotone(2 * n, a + c);
    assert 0 <= (a - c) * (a - c);
    assert (a + c) * (a + c) == a * a + 2 * (a * c) + c * c;
    assert (a - c) * (a - c) == a * a - 2 * (a * c) + c * c;
    assert (2 * n) * (2 * n) == 4 * (n * n);
  }

  lemma NeighbourSquares(row: int)
    ensures (row - 1) * (row - 1) + (row + 1) * (row + 1) == 2 * (row * row) + 2
  {
  }

  /** The ellipse bulges outwards: the half width of a row is at most one more than the rows before it extrapolate
      to. */
  lemma NeverSkips(a: int, b: int, c: int, row: int, halfWidth: int, halfHeight: int)
    requires 0 <= a && InsideEllipse(a, row - 1, halfWidth, halfHeight)
    requires IsHalfWidth(b, row, halfWidth, halfHeight)
    requires 0 <= c && InsideEllipse(c, row + 1, halfWidth, halfHeight)
    ensures c <= b - (a - b) + 1
  {
    if c > b - (a - b) + 1 {
      var n := b + 1;
      MiddleInside(a, n, c, row, halfWidth, halfHeight);
    }
  }

  lemma MiddleInside(a: int, n: int, c: int, row: int, halfWidth: int, halfHeight: int)
    requires 0 <= n && 2 * n <= a + c
    requires InsideEllipse(a, row - 1, halfWidth, halfHeight) && InsideEllipse(c, row + 1, halfWidth, halfHeight)
    ensures InsideEllipse(n, row, halfWidth, halfHeight)
  {
    var hh, ww := halfHeight * halfHeight, halfWidth * halfWidth;
    assert 0 <= hh && 0 <= ww;
    SquaresOfSum(a, c, n);
    NeighbourSquares(row);
    MidpointBound(a * a, c * c, n * n, (row - 1) * (row - 1), (row + 1) * (row + 1), row * row, hh, ww, hh * ww);
  }

  // ---- 32-bit arithmetic ------------------------------------------------------------------------

  /** The greatest column up to `v` inside the ellipse. */
  function HalfWidthFrom(v: nat, row: int, halfWidth: int, halfHeight: int): nat {
    if v == 0 || InsideEllipse(v, row, halfWidth, halfHeight) then v
    else HalfWidthFrom(v - 1, row, halfWidth, halfHeight)
  }

  function HalfWidthOf(row: int, halfWidth: nat, halfHeight: nat): nat {
    HalfWidthFrom(halfWidth, row, halfWidth, halfHeight)
  }

  lemma HalfWidthOfIs(row: int, halfWidth: nat, halfHeight: nat)
    requires 0 <= row <= halfHeight && 0 < halfHeight
    ensures IsHalfWidth(HalfWidthOf(row, halfWidth, halfHeight), row, halfWidth, halfHeight)
  {
    CentreHalfWidth(halfWidth, halfHeight);
    forall v | halfWidth < v ensures !InsideEllipse(v, row, halfWidth, halfHeight) {
      if InsideEllipse(v, row, halfWidth, halfHeight) {
        NarrowerAway(v, row, halfWidth, halfHeight);
      }
    }
    ColumnZero(row, halfWidth, halfHeight);
    hide InsideEllipse;
    GreatestFrom(halfWidth, row, halfWidth, halfHeight);
  }

  lemma {:induction false} GreatestFrom(v: nat, row: int, halfWidth: int, halfHeight: int)
    requires InsideEllipse(0, row, halfWidth, halfHeight)
    requires forall u :: v < u ==> !InsideEllipse(u, row, halfWidth, halfHeight)
    ensures IsHalfWidth(HalfWidthFrom(v, row, halfWidth, halfHeight), row, halfWidth, halfHeight)
  {
    hide InsideEllipse;
    if v > 0 && !InsideEllipse(v, row, halfWidth, halfHeight) {
      GreatestFrom(v - 1, row, halfWidth, halfHeight);
    }
  }

  /** The column that the scan of a row tries first. */
  function StartOf(row: int, halfWidth: nat, halfHeight: nat): int {
    if row <= 1 then halfWidth + 1
    else 2 * HalfWidthOf(row - 1, halfWidth, halfHeight) - HalfWidthOf(row - 2, halfWidth, halfHeight) + 1
  }

  /** The sum for the first column of a row, if the scan gets to it, fits 32 bits. */
  predicate TestFits(row: int, halfWidth: nat, halfHeight: nat) {
    var start := StartOf(row, halfWidth, halfHeight);
    start <= 0 || Reach(start, row, halfWidth, halfHeight) <= INT32_MAX
  }

  /** No sum or product of the whole scan overflows a signed 32-bit integer. */
  predicate ScanFits(halfWidth: nat, halfHeight: nat) {
    && Bound(halfWidth, halfHeight) <= INT32_MAX
    && forall row :: 1 <= row <= halfHeight ==> TestFits(row, halfWidth, halfHeight)
  }

  lemma ReachMonotone(v: int, w: int, row: int, halfWidth: int, halfHeight: int)
    requires 0 <= v <= w
    ensures Reach(v, row, halfWidth, halfHeight) <= Reach(w, row, halfWidth, halfHeight)
  {
    SquareMonotone(v, w);
    assert 0 <= halfHeight * halfHeight;
    ProductMonotone(v * v, w * w, halfHeight * halfHeight);
  }

  /** Off the centre row, pixel `dx` is filled if and only if the column on its far side is inside. */
  lemma FarSideInside(dx: int, dy: int, halfWidth: nat, halfHeight: nat)
    requires 0 < dy <= halfHeight
    ensures var far := if dx < 0 then -dx else dx + 1;
            InEllipseRow(dx, dy, halfWidth, halfHeight) <==>
            (far * far) * (halfHeight * halfHeight) + (dy * dy) * (halfWidth * halfWidth)
            <= (halfHeight * halfHeight) * (halfWidth * halfWidth)
  {
    hide HalfWidthOf, IsHalfWidth, InEllipseRow;
    var far := if dx < 0 then -dx else dx + 1;
    var w := HalfWidthOf(dy, halfWidth, halfHeight);
    HalfWidthOfIs(dy, halfWidth, halfHeight);
    EllipseRowIs(dx, dy, w, halfWidth, halfHeight);
    InsideUpTo(far, w, dy, halfWidth, halfHeight);
    assert Reach(far, dy, halfWidth, halfHeight)
           == (far * far) * (halfHeight * halfHeight) + (dy * dy) * (halfWidth * halfWidth);
  }

  lemma InsideUpTo(v: nat, w: int, dy: int, halfWidth: int, halfHeight: int)
    requires IsHalfWidth(w, dy, halfWidth, halfHeight)
    ensures InsideEllipse(v, dy, halfWidth, halfHeight) <==> v <= w
  {
    hide Reach, Bound;
    if v <= w {
      ReachMonotone(v, w, dy, halfWidth, halfHeight);
    }
  }

  /** The scan starts at most one column beyond the row before. */
  lemma StartIsNear(row: int, halfWidth: nat, halfHeight: nat)
    requires 1 <= row <= halfHeight
    ensures StartOf(row, halfWidth, halfHeight) <= HalfWidthOf(row - 1, halfWidth, halfHeight) + 1
    ensures HalfWidthOf(row - 1, halfWidth, halfHeight) <= halfWidth
  {
    HalfWidthOfIs(row - 1, halfWidth, halfHeight);
    if row == 1 {
      CentreHalfWidth(halfWidth, halfHeight);
      HalfWidthUnique(HalfWidthOf(0, halfWidth, halfHeight), halfWidth, 0, halfWidth, halfHeight);
    } else {
      HalfWidthOfIs(row - 2, halfWidth, halfHeight);
      NarrowerThanCentre(HalfWidthOf(row - 1, halfWidth, halfHeight), row - 1, halfWidth, halfHeight);
      RowsNarrow(HalfWidthOf(row - 1, halfWidth, halfHeight), HalfWidthOf(row - 2, halfWidth, halfHeight),
                 row - 2, halfWidth, halfHeight);
    }
  }

  lemma RowsNarrow(w: nat, v: nat, row: int, halfWidth: nat, halfHeight: nat)
    requires 0 <= row && InsideEllipse(w, row + 1, halfWidth, halfHeight) && IsHalfWidth(v, row, halfWidth, halfHeight)
    ensures w <= v
  {
    InsideAbove(w, row, halfWidth, halfHeight);
    hide InsideEllipse;
  }

  lemma InsideAbove(w: nat, row: int, halfWidth: nat, halfHeight: nat)
    requires 0 <= row && InsideEllipse(w, row + 1, halfWidth, halfHeight)
    ensures InsideEllipse(w, row, halfWidth, halfHeight)
  {
    SquareMonotone(row, row + 1);
    assert 0 <= halfWidth * halfWidth;
    ProductMonotone(row * row, (row + 1) * (row + 1), halfWidth * halfWidth);
  }

  /** A bound on the half extents alone that keeps the scan within 32 bits. */
  lemma SmallScanFits(halfWidth: nat, halfHeight: nat)
    requires Reach(halfWidth + 1, halfHeight, halfWidth, halfHeight) <= INT32_MAX
    ensures ScanFits(halfWidth, halfHeight)
  {
    SquareMonotone(halfWidth, halfWidth + 1);
    assert 0 <= halfHeight * halfHeight && 0 <= halfWidth * halfWidth;
    ProductMonotone(halfWidth * halfWidth, (halfWidth + 1) * (halfWidth + 1), halfHeight * halfHeight);
    ProductMonotone(0, halfHeight * halfHeight, halfWidth * halfWidth);
    forall row | 1 <= row <= halfHeight ensures TestFits(row, halfWidth, halfHeight) {
      StartIsNear(row, halfWidth, halfHeight);
      if StartOf(row, halfWidth, halfHeight) > 0 {
        ReachMonotone(StartOf(row, halfWidth, halfHeight), halfWidth + 1, row, halfWidth, halfHeight);
        SquareMonotone(row, halfHeight);
        ProductMonotone(row * row, halfHeight * halfHeight, halfWidth * halfWidth);
      }
    }
  }

  /** The first sum of an ellipse 430 pixels wide and high overflows. Wrapped to 32 bits it would pass the test, for a
      column outside the ellipse. */
  lemma LargeCircleOverflows()
    ensures StartOf(1, 215, 215) == 216 && 215 * 215 <= 46340
    ensures Reach(216, 1, 215, 215) > INT32_MAX && !ScanFits(215, 215)
    ensures ToInt32(Reach(216, 1, 215, 215)) <= Bound(215, 215) <= INT32_MAX && !InsideEllipse(216, 1, 215, 215)
  {
    assert Reach(216, 1, 215, 215) == 2156719825;
    assert !TestFits(1, 215, 215);
  }

  /** Truncation to a signed 32-bit integer. */
  function ToInt32(v: int): int {
    (v + 0x8000_0000) % 0x1_0000_0000 - 0x8000_0000
  }

  /** The one 32-bit integer that is the same modulo 2 to the 32nd. */
  lemma ToInt32Is(v: int, r: int)
    ensures INT32_MAX == 0x7FFF_FFFF
    ensures r == ToInt32(v) <==> -0x8000_0000 <= r <= 0x7FFF_FFFF && (v - r) % 0x1_0000_0000 == 0
  {
  }

  /** The scan of one row from column `v` down, with sums that wrap. */
  function WrappedScan(v: int, row: int, halfWidth: nat, halfHeight: nat): int
    decreases if v < 0 then 0 else v
  {
    if v <= 0 || ToInt32(Reach(v, row, halfWidth, halfHeight)) <= Bound(halfWidth, halfHeight) then v
    else WrappedScan(v - 1, row, halfWidth, halfHeight)
  }

  /** The offset of a row when sums wrap, extrapolated from the offsets so found for the rows before. */
  function WrappedOffset(row: nat, halfWidth: nat, halfHeight: nat): int {
    if row == 0 then halfWidth
    else if row == 1 then WrappedScan(halfWidth + 1, 1, halfWidth, halfHeight)
    else
      var last, before := WrappedOffset(row - 1, halfWidth, halfHeight), WrappedOffset(row - 2, halfWidth, halfHeight);
      WrappedScan(2 * last - before + 1, row, halfWidth, halfHeight)
  }

  /** Started where it should, the wrapped scan of a row ends at its half width exactly when its first sum fits: a sum
      that does not fit turns negative, and the scan stops at once, outside the ellipse. */
  lemma WrappedRowIsRight(row: int, halfWidth: nat, halfHeight: nat)
    requires 1 <= row <= halfHeight <= 16383 && halfWidth <= 16383
    requires Bound(halfWidth, halfHeight) <= INT32_MAX
    ensures TestFits(row, halfWidth, halfHeight) <==>
            WrappedScan(StartOf(row, halfWidth, halfHeight), row, halfWidth, halfHeight)
            == HalfWidthOf(row, halfWidth, halfHeight)
  {
    hide Reach, Bound, HalfWidthOf, StartOf, ToInt32;
    var w, start := HalfWidthOf(row, halfWidth, halfHeight), StartOf(row, halfWidth, halfHeight);
    HalfWidthOfIs(row, halfWidth, halfHeight);
    BoundIsNat(halfWidth, halfHeight);
    if start > 0 && Reach(start, row, halfWidth, halfHeight) > INT32_MAX {
      StartWraps(row, halfWidth, halfHeight);
      assert !InsideEllipse(start, row, halfWidth, halfHeight);
    } else {
      StartReaches(row, halfWidth, halfHeight);
      ScanDown(start, row, halfWidth, halfHeight);
    }
  }

  lemma StartReaches(row: int, halfWidth: nat, halfHeight: nat)
    requires 1 <= row <= halfHeight
    ensures HalfWidthOf(row, halfWidth, halfHeight) <= StartOf(row, halfWidth, halfHeight)
  {
    hide InsideEllipse, HalfWidthOf;
    var last := HalfWidthOf(row - 1, halfWidth, halfHeight);
    HalfWidthOfIs(row, halfWidth, halfHeight);
    HalfWidthOfIs(row - 1, halfWidth, halfHeight);
    if row > 1 {
      HalfWidthOfIs(row - 2, halfWidth, halfHeight);
    }
    var slope := if row == 1 then 0 else HalfWidthOf(row - 2, halfWidth, halfHeight) - last;
    StartIs(row, last, slope, halfWidth, halfHeight);
    StartAbove(HalfWidthOf(row, halfWidth, halfHeight), row, last, slope, halfWidth, halfHeight);
  }

  /** As long as sums fit, wrapping makes no difference. */
  lemma {:induction false} ScanDown(v: nat, row: int, halfWidth: nat, halfHeight: nat)
    requires 1 <= row <= halfHeight && Bound(halfWidth, halfHeight) <= INT32_MAX
    requires HalfWidthOf(row, halfWidth, halfHeight) <= v
    requires v > 0 ==> Reach(v, row, halfWidth, halfHeight) <= INT32_MAX
    ensures WrappedScan(v, row, halfWidth, halfHeight) == HalfWidthOf(row, halfWidth, halfHeight)
  {
    hide Reach, Bound, HalfWidthOf, ToInt32;
    var w := HalfWidthOf(row, halfWidth, halfHeight);
    HalfWidthOfIs(row, halfWidth, halfHeight);
    ReachIsNat(v, row, halfWidth, halfHeight);
    FitsUnwrapped(Reach(v, row, halfWidth, halfHeight));
    if w < v {
      ReachMonotone(v - 1, v, row, halfWidth, halfHeight);
      ScanDown(v - 1, row, halfWidth, halfHeight);
      assert !InsideEllipse(v, row, halfWidth, halfHeight);
    }
  }

  lemma ReachIsNat(v: int, row: int, halfWidth: int, halfHeight: int)
    ensures 0 <= Reach(v, row, halfWidth, halfHeight)
  {
    assert 0 <= v * v && 0 <= row * row && 0 <= halfHeight * halfHeight && 0 <= halfWidth * halfWidth;
    ProductMonotone(0, v * v, halfHeight * halfHeight);
    ProductMonotone(0, row * row, halfWidth * halfWidth);
  }

  /** With sums that wrap, every row up to `n` comes out right exactly when the first sum of each of them fits. */
  lemma {:induction false} WrappedRowsAreRight(n: nat, halfWidth: nat, halfHeight: nat)
    requires n <= halfHeight <= 16383 && 0 < halfHeight && halfWidth <= 16383
    requires Bound(halfWidth, halfHeight) <= INT32_MAX
    ensures (forall row :: 1 <= row <= n ==> TestFits(row, halfWidth, halfHeight)) <==>
            (forall row :: 0 <= row <= n ==>
               WrappedOffset(row, halfWidth, halfHeight) == HalfWidthOf(row, halfWidth, halfHeight))
  {
    hide TestFits, HalfWidthOf, WrappedScan;
    if n == 0 {
      CentreIs(halfWidth, halfHeight);
    } else {
      WrappedRowsAreRight(n - 1, halfWidth, halfHeight);
      WrappedRowIsRight(n, halfWidth, halfHeight);
    }
  }

  lemma CentreIs(halfWidth: nat, halfHeight: nat)
    requires 0 < halfHeight
    ensures HalfWidthOf(0, halfWidth, halfHeight) == halfWidth
  {
    HalfWidthOfIs(0, halfWidth, halfHeight);
    CentreHalfWidth(halfWidth, halfHeight);
    HalfWidthUnique(HalfWidthOf(0, halfWidth, halfHeight), halfWidth, 0, halfWidth, halfHeight);
  }

  /** With sums that wrap, the whole scan is right exactly when no sum overflows. */
  lemma WrappedScanIsRight(halfWidth: nat, halfHeight: nat)
    requires 0 < halfHeight <= 16383 && halfWidth <= 16383 && Bound(halfWidth, halfHeight) <= INT32_MAX
    ensures ScanFits(halfWidth, halfHeight) <==>
            forall row :: 0 <= row <= halfHeight ==>
              IsHalfWidth(WrappedOffset(row, halfWidth, halfHeight), row, halfWidth, halfHeight)
  {
    hide TestFits, HalfWidthOf, WrappedOffset, IsHalfWidth;
    WrappedRowsAreRight(halfHeight, halfWidth, halfHeight);
    forall row | 0 <= row <= halfHeight
      ensures IsHalfWidth(WrappedOffset(row, halfWidth, halfHeight), row, halfWidth, halfHeight) <==>
              WrappedOffset(row, halfWidth, halfHeight) == HalfWidthOf(row, halfWidth, halfHeight)
    {
      HalfWidthOfIs(row, halfWidth, halfHeight);
      if IsHalfWidth(WrappedOffset(row, halfWidth, halfHeight), row, halfWidth, halfHeight) {
        HalfWidthUnique(WrappedOffset(row, halfWidth, halfHeight), HalfWidthOf(row, halfWidth, halfHeight), row,
                        halfWidth, halfHeight);
      }
    }
  }

  lemma BoundIsNat(halfWidth: nat, halfHeight: nat)
    ensures 0 <= Bound(halfWidth, halfHeight)
  {
    assert 0 <= halfHeight * halfHeight && 0 <= halfWidth * halfWidth;
  }

  lemma FitsUnwrapped(v: int)
    ensures 0 <= v <= INT32_MAX ==> ToInt32(v) == v
  {
  }

  lemma StartWraps(row: int, halfWidth: nat, halfHeight: nat)
    requires 1 <= row <= halfHeight <= 16383 && halfWidth <= 16383
    requires Bound(halfWidth, halfHeight) <= INT32_MAX
    requires StartOf(row, halfWidth, halfHeight) > 0
    requires Reach(StartOf(row, halfWidth, halfHeight), row, halfWidth, halfHeight) > INT32_MAX
    ensures ToInt32(Reach(StartOf(row, halfWidth, halfHeight), row, halfWidth, halfHeight)) < 0
    ensures 0 <= Bound(halfWidth, halfHeight)
  {
    var b := HalfWidthOf(row - 1, halfWidth, halfHeight);
    StartIsNear(row, halfWidth, halfHeight);
    HalfWidthOfIs(row - 1, halfWidth, halfHeight);
    ReachMonotone(StartOf(row, halfWidth, halfHeight), b + 1, row, halfWidth, halfHeight);
    NextReach(b, row, halfWidth, halfHeight);
    BoundIsNat(halfWidth, halfHeight);
    hide Reach, Bound, HalfWidthOf, StartOf;
  }

  /** One column further and one row on, the sum stays below 2^32. */
  lemma NextReach(b: nat, row: int, halfWidth: nat, halfHeight: nat)
    requires 1 <= row <= halfHeight <= 16383 && b <= halfWidth <= 16383
    requires Bound(halfWidth, halfHeight) <= INT32_MAX && InsideEllipse(b, row - 1, halfWidth, halfHeight)
    ensures Reach(b + 1, row, halfWidth, halfHeight) < 0x1_0000_0000
  {
    var hh, ww := halfHeight * halfHeight, halfWidth * halfWidth;
    var p := halfWidth * halfHeight;
    RootOfBound(p, halfWidth, halfHeight);
    ReachGrows(b, row, halfWidth, halfHeight);
    assert 0 <= hh && 0 <= ww;
    ProductMonotone(2 * b + 1, 2 * halfWidth + 1, hh);
    ProductMonotone(2 * row - 1, 2 * halfHeight, ww);
    EdgeTerms(p, halfWidth, halfHeight);
    SumOfExtents(p, halfWidth, halfHeight);
    hide Reach, Bound;
  }

  lemma RootOfBound(p: nat, halfWidth: nat, halfHeight: nat)
    requires p == halfWidth * halfHeight && Bound(halfWidth, halfHeight) <= INT32_MAX
    ensures p <= 46340
  {
    assert p * p == Bound(halfWidth, halfHeight);
    if p > 46340 {
      SquareMonotone(46341, p);
    }
  }

  lemma ReachGrows(b: int, row: int, halfWidth: int, halfHeight: int)
    ensures Reach(b + 1, row, halfWidth, halfHeight)
            == Reach(b, row - 1, halfWidth, halfHeight)
               + (2 * b + 1) * (halfHeight * halfHeight) + (2 * row - 1) * (halfWidth * halfWidth)
  {
    var hh, ww := halfHeight * halfHeight, halfWidth * halfWidth;
    assert (b + 1) * (b + 1) == b * b + (2 * b + 1) && row * row == (row - 1) * (row - 1) + (2 * row - 1);
    Distribute(b * b, 2 * b + 1, hh);
    Distribute((row - 1) * (row - 1), 2 * row - 1, ww);
  }

  lemma EdgeTerms(p: int, halfWidth: int, halfHeight: int)
    requires p == halfWidth * halfHeight
    ensures (2 * halfWidth + 1) * (halfHeight * halfHeight) == 2 * p * halfHeight + halfHeight * halfHeight
    ensures 2 * halfHeight * (halfWidth * halfWidth) == 2 * p * halfWidth
  {
    Distribute(2 * halfWidth, 1, halfHeight * halfHeight);
    assert 2 * halfWidth * (halfHeight * halfHeight) == 2 * (halfWidth * halfHeight) * halfHeight;
    assert 2 * halfHeight * (halfWidth * halfWidth) == 2 * (halfWidth * halfHeight) * halfWidth;
  }

  lemma SumOfExtents(p: nat, halfWidth: nat, halfHeight: nat)
    requires p == halfWidth * halfHeight <= 46340 && halfWidth <= 16383 && halfHeight <= 16383
    ensures 2 * p * halfHeight + halfHeight * halfHeight + 2 * p * halfWidth <= 0x8000_0000
  {
    assert (16383 - halfWidth) * (16383 - halfHeight) >= 0;
    assert (16383 - halfWidth) * (16383 - halfHeight) == 16383 * 16383 - 16383 * (halfWidth + halfHeight) + p;
    var q := halfWidth + halfHeight;
    assert q <= 16385;
    ProductMonotone(p, 46340, q);
    assert 2 * p * halfHeight + 2 * p * halfWidth == 2 * (p * q);
    SquareMonotone(halfHeight, 16383);
  }

  // ---- The scan ---------------------------------------------------------------------------------

  /** The half width of row `row`, counted down from the extrapolation of the rows before it in `steps` steps. The scan
      is undefined exactly when its first sum overflows. */
  method NextOffset(row: int, lastOffset: int, slopeDx: int, halfWidth: nat, halfHeight: nat)
    returns (defined: bool, offset: int, ghost steps: nat)
    requires 1 <= row <= halfHeight
    requires IsHalfWidth(lastOffset, row - 1, halfWidth, halfHeight)
    requires if row == 1 then slopeDx == 0 else IsHalfWidth(lastOffset + slopeDx, row - 2, halfWidth, halfHeight)
    ensures defined <==> TestFits(row, halfWidth, halfHeight)
    ensures defined ==> IsHalfWidth(offset, row, halfWidth, halfHeight) && offset + steps == lastOffset - (slopeDx - 1)
  {
    ColumnZero(row, halfWidth, halfHeight);
    hide InsideEllipse, Reach, HalfWidthOf;
    offset := lastOffset - (slopeDx - 1);
    forall v | offset < v ensures !(0 <= v && InsideEllipse(v, row, halfWidth, halfHeight)) {
      StartAbove(v, row, lastOffset, slopeDx, halfWidth, halfHeight);
    }
    assert offset >= 0;
    StartIs(row, lastOffset, slopeDx, halfWidth, halfHeight);
    steps := 0;
    while offset > 0
      invariant 0 <= offset && offset + steps == lastOffset - (slopeDx - 1)
      invariant forall v :: offset < v ==> !InsideEllipse(v, row, halfWidth, halfHeight)
      invariant steps > 0 ==> TestFits(row, halfWidth, halfHeight)
    {
      ReachMonotone(offset, offset + steps, row, halfWidth, halfHeight);
      if Reach(offset, row, halfWidth, halfHeight) > INT32_MAX {
        return false, offset, steps;
      }
      if InsideEllipse(offset, row, halfWidth, halfHeight) {
        break;
      }
      offset := offset - 1;
      steps := steps + 1;
    }
    defined := true;
  }

  lemma StartIs(row: int, lastOffset: int, slopeDx: int, halfWidth: nat, halfHeight: nat)
    requires 1 <= row <= halfHeight
    requires IsHalfWidth(lastOffset, row - 1, halfWidth, halfHeight)
    requires if row == 1 then slopeDx == 0 else IsHalfWidth(lastOffset + slopeDx, row - 2, halfWidth, halfHeight)
    ensures StartOf(row, halfWidth, halfHeight) == lastOffset - (slopeDx - 1)
  {
    hide InsideEllipse, HalfWidthOf;
    if row == 1 {
      CentreHalfWidth(halfWidth, halfHeight);
      HalfWidthUnique(lastOffset, halfWidth, 0, halfWidth, halfHeight);
    } else {
      HalfWidthOfIs(row - 1, halfWidth, halfHeight);
      HalfWidthOfIs(row - 2, halfWidth, halfHeight);
      HalfWidthUnique(lastOffset, HalfWidthOf(row - 1, halfWidth, halfHeight), row - 1, halfWidth, halfHeight);
      HalfWidthUnique(lastOffset + slopeDx, HalfWidthOf(row - 2, halfWidth, halfHeight), row - 2, halfWidth,
                      halfHeight);
    }
  }

  lemma StartAbove(v: int, row: int, lastOffset: int, slopeDx: int, halfWidth: int, halfHeight: int)
    requires 0 <= halfWidth && 1 <= row <= halfHeight
    requires IsHalfWidth(lastOffset, row - 1, halfWidth, halfHeight)
    requires if row == 1 then slopeDx == 0 else IsHalfWidth(lastOffset + slopeDx, row - 2, halfWidth, halfHeight)
    ensures 0 <= v && InsideEllipse(v, row, halfWidth, halfHeight) ==> v <= lastOffset - (slopeDx - 1)
  {
    if 0 <= v && InsideEllipse(v, row, halfWidth, halfHeight) {
      if row == 1 {
        NarrowerAway(v, row, halfWidth, halfHeight);
        hide InsideEllipse;
      } else {
        hide InsideEllipse;
        NeverSkips(lastOffset + slopeDx, lastOffset, v, row - 1, halfWidth, halfHeight);
      }
    }
  }

  lemma NarrowerAway(v: int, row: int, halfWidth: int, halfHeight: int)
    requires 1 <= row && InsideEllipse(v, row, halfWidth, halfHeight)
    ensures InsideEllipse(v, 0, halfWidth, halfHeight)
  {
    SquareMonotone(0, row);
    assert 0 <= halfWidth * halfWidth;
    ProductMonotone(0, row * row, halfWidth * halfWidth);
  }

  lemma NarrowerThanCentre(w: int, row: int, halfWidth: int, halfHeight: int)
    requires 0 <= halfWidth && 1 <= row <= halfHeight && IsHalfWidth(w, row, halfWidth, halfHeight)
    ensures 0 <= w <= halfWidth
  {
    CentreHalfWidth(halfWidth, halfHeight);
    NarrowerAway(w, row, halfWidth, halfHeight);
  }
}
