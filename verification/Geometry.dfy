/** Rectangles on the 16-bit QuickDraw plane (`emu/graphics/graphics_helpers.h`). */
module Geometry {

  const INT16_MAX := 32767
  const INT16_MIN := -32768

  /** The rows at the top of the screen that belong to the menu bar. */
  const MENU_BAR_HEIGHT := 20

  datatype Point = Point(x: int, y: int)

  datatype Rect = Rect(top: int, left: int, bottom: int, right: int)

  const ZERO_RECT := Rect(0, 0, 0, 0)

  predicate IsInt16(v: int) {
    INT16_MIN <= v <= INT16_MAX
  }

  /** Truncation to a signed 16-bit integer, as a store into an `int16_t` does. */
  function ToInt16(v: int): (r: int)
    ensures IsInt16(r)
    ensures IsInt16(v) ==> r == v
  {
    (v - INT16_MIN) % 0x1_0000 + INT16_MIN
  }

  predicate Sides16(r: Rect) {
    IsInt16(r.top) && IsInt16(r.left) && IsInt16(r.bottom) && IsInt16(r.right)
  }

  /** The one 16-bit integer that is the same modulo 65536. */
  lemma ToInt16Is(v: int, r: int)
    ensures r == ToInt16(v) <==> -32768 <= r <= 32767 && (v - r) % 65536 == 0
  {
  }

  /** A rect of 16-bit coordinates that is not inside out. */
  predicate Ordered(r: Rect) {
    Sides16(r) && r.top <= r.bottom && r.left <= r.right
  }

  /** A rect whose sides and extents all fit in 16 bits, and whose extents are not negative. */
  predicate ValidRect(r: Rect) {
    Ordered(r) && r.bottom - r.top <= INT16_MAX && r.right - r.left <= INT16_MAX
  }

  /** Any rect whose sides and extents fit in 16 bits. */
  predicate Int16Rect(r: Rect) {
    Sides16(r) && IsInt16(r.bottom - r.top) && IsInt16(r.right - r.left)
  }

  predicate EmptyRect(r: Rect) {
    r.bottom <= r.top || r.right <= r.left
  }

  function RectWidth(r: Rect): int { ToInt16(r.right - r.left) }

  function RectHeight(r: Rect): int { ToInt16(r.bottom - r.top) }

  /** The rect as it is seen by counting its rows: a height that does not fit 16 bits wraps. */
  function Counted(r: Rect): Rect {
    r.(bottom := r.top + RectHeight(r))
  }

  lemma RectExtents(r: Rect)
    requires Int16Rect(r)
    ensures RectWidth(r) == r.right - r.left && RectHeight(r) == r.bottom - r.top
  {
  }

  lemma ValidExtents(r: Rect)
    requires ValidRect(r)
    ensures RectWidth(r) == r.right - r.left >= 0 && RectHeight(r) == r.bottom - r.top >= 0
  {
  }

  predicate PointInRect(x: int, y: int, r: Rect) {
    r.left <= x < r.right && r.top <= y < r.bottom
  }

  function NewRect(x: int, y: int, width: int, height: int): Rect {
    Rect(ToInt16(y), ToInt16(x), ToInt16(y + height), ToInt16(x + width))
  }

  function OffsetRect(r: Rect, dh: int, dv: int): Rect {
    Rect(ToInt16(r.top + dv), ToInt16(r.left + dh), ToInt16(r.bottom + dv), ToInt16(r.right + dh))
  }

  function NormalizeRect(r: Rect): Rect {
    OffsetRect(r, -r.left, -r.top)
  }

  /** Rects with a negative or zero extent become the zero rect. */
  function Validated(r: Rect): Rect {
    if r.top >= r.bottom || r.left >= r.right then ZERO_RECT else r
  }

  function InsetRect(r: Rect, dh: int, dv: int): Rect {
    Validated(Rect(ToInt16(r.top + dv), ToInt16(r.left + dh), ToInt16(r.bottom - dv), ToInt16(r.right - dh)))
  }

  /** How rects move, shrink and come from a corner and a size, as long as every side fits 16 bits. */
  lemma RectsAre(r: Rect, dh: int, dv: int)
    ensures Sides16(Rect(r.top + dv, r.left + dh, r.bottom + dv, r.right + dh)) ==>
              OffsetRect(r, dh, dv) == Rect(r.top + dv, r.left + dh, r.bottom + dv, r.right + dh)
    ensures var inner := Rect(r.top + dv, r.left + dh, r.bottom - dv, r.right - dh);
            Sides16(inner) ==>
              InsetRect(r, dh, dv)
              == if inner.top < inner.bottom && inner.left < inner.right then inner else Rect(0, 0, 0, 0)
    ensures Sides16(Rect(dv, dh, dv + r.bottom, dh + r.right)) ==>
              NewRect(dh, dv, r.right, r.bottom) == Rect(dv, dh, dv + r.bottom, dh + r.right)
  {
  }

  function Max(a: int, b: int): int { if a > b then a else b }

  function Min(a: int, b: int): int { if a < b then a else b }

  /** Moving a rect to the origin keeps its extents. */
  lemma NormalizeKeepsExtent(r: Rect)
    requires ValidRect(r)
    ensures NormalizeRect(r) == Rect(0, 0, r.bottom - r.top, r.right - r.left)
  {
  }
}
