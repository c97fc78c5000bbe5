/** Popup menus and the highlighting of rects (`emu/menu_popup.cc`): everything drawn is taken back on closing. */
module MenuPopUps {
  import opened Geometry
  import opened Options
  import opened Regions
  import opened Bits
  import opened Raster
  import opened Blits
  import opened Bitmaps

  const MENU_ITEM_HEIGHT := 12
  const MENU_ITEM_GLYPH_WIDTH := 8
  const MENU_ITEM_PADDING_WIDTH := 6
  const MINIMUM_SHORTCUT_PADDING := 12
  const NO_MENU_ITEM := 0

  const MENU_POPUP_PATTERN: seq<Byte> := [0x00, 0x00, 0x00, 0x00, 0x00, 0x00, 0x00, 0x00]
  const HIGHLIGHT_PATTERN: seq<Byte> := [0xff, 0xff, 0xff, 0xff, 0xff, 0xff, 0xff, 0xff]

  datatype MenuItem = MenuItem(title: string, keyboardShortcut: nat)

  /** `enabled[0]` stands for the menu itself, `enabled[i + 1]` for its item `i`. */
  datatype Menu = Menu(id: nat, title: string, enabled: seq<bool>)

  // ---- Highlighting, pixel by pixel -------------------------------------------------------------

  /** `now` is `was` with the rect inverted inside the clip. */
  ghost predicate Inverted(now: seq<Byte>, was: seq<Byte>, e: Extent, rect: Rect, clip: seq<int>) {
    && |now| == |was| == e.Size()
    && forall x, y :: e.Has(x, y) ==>
         Pixel(now, e, x, y) == (Pixel(was, e, x, y) != (PointInRect(x, y, rect) && Contains(clip, x, y)))
  }

  lemma XOrInverts(now: seq<Byte>, was: seq<Byte>, e: Extent, rect: Rect, clip: seq<int>)
    requires Painted(now, was, e, Box(rect), rect.top, rect.left, clip, HIGHLIGHT_PATTERN, XOr)
    ensures Inverted(now, was, e, rect, clip)
  {
    hide Pixel, Contains;
    forall x, y | e.Has(x, y)
      ensures Pixel(now, e, x, y) == (Pixel(was, e, x, y) != (PointInRect(x, y, rect) && Contains(clip, x, y)))
    {
      assert ShapePixel(now, was, e, Box(rect), rect.top, rect.left, clip, HIGHLIGHT_PATTERN, XOr, x, y);
      AllInk(rect.top, rect.left, x, y);
      PaintedOnce(XOr, Pixel(was, e, x, y), Ink(HIGHLIGHT_PATTERN, rect.top, rect.left, x, y), PointInRect(x, y, rect));
    }
  }

  lemma AllInk(inkTop: int, inkLeft: int, x: int, y: int)
    ensures Ink(HIGHLIGHT_PATTERN, inkTop, inkLeft, x, y)
  {
  }

  /** Inverting the same rect again restores every byte. */
  lemma InvertTwice(c: seq<Byte>, b: seq<Byte>, a: seq<Byte>, e: Extent, rect: Rect, clip: seq<int>)
    requires Inverted(b, a, e, rect, clip) && Inverted(c, b, e, rect, clip)
    ensures c == a
  {
    hide Pixel, Contains;
    SamePixels(c, a, e);
  }

  /** Inverting a new rect before taking back the old one leaves just the new one inverted. */
  lemma InvertInstead(d: seq<Byte>, c: seq<Byte>, b: seq<Byte>, a: seq<Byte>, e: Extent, oldRect: Rect, newRect: Rect,
                      clip: seq<int>)
    requires Inverted(b, a, e, oldRect, clip) && Inverted(c, b, e, newRect, clip) && Inverted(d, c, e, oldRect, clip)
    ensures Inverted(d, a, e, newRect, clip)
  {
    hide Pixel, Contains;
  }

  /** Pixels outside the rect, and pixels outside the clip, are as they were. */
  ghost predicate ChangedWithin(now: seq<Byte>, was: seq<Byte>, e: Extent, rect: Rect, clip: seq<int>) {
    && |now| == |was| == e.Size()
    && forall x, y :: e.Has(x, y) && !(PointInRect(x, y, rect) && Contains(clip, x, y)) ==>
         Pixel(now, e, x, y) == Pixel(was, e, x, y)
  }

  lemma ChangedMore(c: seq<Byte>, b: seq<Byte>, a: seq<Byte>, e: Extent, rect: Rect, clip: seq<int>)
    requires ChangedWithin(b, a, e, rect, clip) && ChangedWithin(c, b, e, rect, clip)
    ensures ChangedWithin(c, a, e, rect, clip)
  {
    hide Pixel, Contains;
  }

  lemma BoxChanges(now: seq<Byte>, was: seq<Byte>, e: Extent, rect: Rect, clip: seq<int>, pattern: seq<Byte>,
                   mode: FillMode)
    requires |pattern| == 8 && Painted(now, was, e, Box(rect), rect.top, rect.left, clip, pattern, mode)
    ensures ChangedWithin(now, was, e, rect, clip)
  {
    hide Pixel, Contains, Ink;
    forall x, y | e.Has(x, y) && !(PointInRect(x, y, rect) && Contains(clip, x, y))
      ensures Pixel(now, e, x, y) == Pixel(was, e, x, y)
    {
      assert ShapePixel(now, was, e, Box(rect), rect.top, rect.left, clip, pattern, mode, x, y);
    }
  }

  lemma FrameChanges(now: seq<Byte>, was: seq<Byte>, e: Extent, rect: Rect, clip: seq<int>, pattern: seq<Byte>,
                     mode: FillMode)
    requires |pattern| == 8 && rect.top < rect.bottom && rect.left < rect.right
    requires Painted(now, was, e, Frame(rect, true, rect.bottom - 1, rect.bottom - 1, true), 0, rect.left, clip,
                     pattern, mode)
    ensures ChangedWithin(now, was, e, rect, clip)
  {
    hide Pixel, Contains, Ink;
    var frame := Frame(rect, true, rect.bottom - 1, rect.bottom - 1, true);
    forall x, y | e.Has(x, y) && !(PointInRect(x, y, rect) && Contains(clip, x, y))
      ensures Pixel(now, e, x, y) == Pixel(was, e, x, y)
    {
      assert ShapePixel(now, was, e, frame, 0, rect.left, clip, pattern, mode, x, y);
    }
  }

  lemma BlitChanges(now: seq<Byte>, was: seq<Byte>, e: Extent, rect: Rect, clip: seq<int>, src: Source)
    requires src.Valid() && Blitted(now, was, e, rect, clip, src)
    ensures ChangedWithin(now, was, e, rect, clip)
  {
    hide Pixel, Contains, Source.Shows;
    forall x, y | e.Has(x, y) && !(PointInRect(x, y, rect) && Contains(clip, x, y))
      ensures Pixel(now, e, x, y) == Pixel(was, e, x, y)
    {
      assert BlitPixel(now, was, e, rect, clip, src, x, y);
    }
  }

  /** The small image holds what the large one shows inside the rect. */
  ghost predicate HoldsCopy(small: seq<Byte>, smallE: Extent, large: seq<Byte>, e: Extent, rect: Rect) {
    && |small| == smallE.Size() && |large| == e.Size()
    && forall x, y :: e.Has(x, y) && PointInRect(x, y, rect) && smallE.Has(x - rect.left, y - rect.top) ==>
         Pixel(small, smallE, x - rect.left, y - rect.top) == Pixel(large, e, x, y)
  }

  lemma CopyHeld(small: seq<Byte>, was: seq<Byte>, smallE: Extent, clip: seq<int>, large: seq<Byte>, e: Extent,
                 rect: Rect)
    requires |large| == e.Size()
    requires smallE.width == rect.right - rect.left && smallE.height == rect.bottom - rect.top
    requires forall x, y :: Contains(clip, x, y) <==> 0 <= x < smallE.width && 0 <= y < smallE.height
    requires Blitted(small, was, smallE, Rect(0, 0, rect.bottom - rect.top, rect.right - rect.left), clip,
                     Source(large, e, rect.left, rect.top))
    ensures HoldsCopy(small, smallE, large, e, rect)
  {
    hide Pixel, Contains, Source.Shows;
    var src := Source(large, e, rect.left, rect.top);
    forall x, y | e.Has(x, y) && PointInRect(x, y, rect) && smallE.Has(x - rect.left, y - rect.top)
      ensures Pixel(small, smallE, x - rect.left, y - rect.top) == Pixel(large, e, x, y)
    {
      assert BlitPixel(small, was, smallE, Rect(0, 0, rect.bottom - rect.top, rect.right - rect.left), clip, src,
                       x - rect.left, y - rect.top);
      ShowsPixel(src, x - rect.left, y - rect.top);
    }
  }

  // ---- What a popup leaves behind ---------------------------------------------------------------

  /** The pixels a menu without items sets and does not save: its border is the row above its top and the row below. */
  ghost predicate OnMark(popup: Rect, clip: Region, x: int, y: int) {
    popup.bottom <= popup.top && OnFlatFrame(popup, clip, x, y)
  }

  /** `drawn` is `lit` with anything inside the popup and, for a menu without items, its mark. */
  ghost predicate DrawnOver(drawn: seq<Byte>, lit: seq<Byte>, e: Extent, popup: Rect, clip: Region) {
    && |drawn| == |lit| == e.Size()
    && forall x, y :: e.Has(x, y) ==>
         && (OnMark(popup, clip, x, y) ==> Pixel(drawn, e, x, y))
         && (!OnMark(popup, clip, x, y) && !(PointInRect(x, y, popup) && Contains(clip.data, x, y)) ==>
              Pixel(drawn, e, x, y) == Pixel(lit, e, x, y))
  }

  /** `now` is `lit` but for the mark. */
  ghost predicate Marked(now: seq<Byte>, lit: seq<Byte>, e: Extent, popup: Rect, clip: Region) {
    && |now| == |lit| == e.Size()
    && forall x, y :: e.Has(x, y) ==>
         Pixel(now, e, x, y) == (OnMark(popup, clip, x, y) || Pixel(lit, e, x, y))
  }

  /** A pixel of the mark once the title's highlight is taken back. */
  ghost predicate MarkInk(anchor: Rect, clip: Region, x: int, y: int) {
    !(PointInRect(x, y, anchor) && Contains(clip.data, x, y))
  }

  /** `now` is `before` but for the mark, which the title's highlight has inverted where the two meet. */
  ghost predicate Closed(now: seq<Byte>, before: seq<Byte>, e: Extent, popup: Rect, anchor: Rect, clip: Region) {
    && |now| == |before| == e.Size()
    && forall x, y :: e.Has(x, y) ==>
         Pixel(now, e, x, y)
         == if OnMark(popup, clip, x, y) then MarkInk(anchor, clip, x, y) else Pixel(before, e, x, y)
  }

  /** Every pixel of the mark already looks as the popup would leave it. */
  ghost predicate MarkIsThere(before: seq<Byte>, e: Extent, popup: Rect, anchor: Rect, clip: Region)
    requires |before| == e.Size()
  {
    forall x, y :: e.Has(x, y) && OnMark(popup, clip, x, y) ==> Pixel(before, e, x, y) == MarkInk(anchor, clip, x, y)
  }

  /** Copying the held pixels back restores all but the mark, as long as nothing else outside the rect has changed. */
  lemma CopyBack(now: seq<Byte>, drawn: seq<Byte>, lit: seq<Byte>, e: Extent, rect: Rect, clip: Region,
                 small: seq<Byte>, smallE: Extent)
    requires HoldsCopy(small, smallE, lit, e, rect) && DrawnOver(drawn, lit, e, rect, clip)
    requires smallE.width == rect.right - rect.left && smallE.height == rect.bottom - rect.top
    requires Blitted(now, drawn, e, rect, clip.data, Source(small, smallE, -rect.left, -rect.top))
    ensures Marked(now, lit, e, rect, clip)
  {
    var src := Source(small, smallE, -rect.left, -rect.top);
    hide Pixel, Contains, Source.Shows, OnFlatFrame;
    forall x, y | e.Has(x, y) ensures Pixel(now, e, x, y) == (OnMark(rect, clip, x, y) || Pixel(lit, e, x, y)) {
      assert BlitPixel(now, drawn, e, rect, clip.data, src, x, y);
      if PointInRect(x, y, rect) && Contains(clip.data, x, y) {
        assert smallE.Has(x - rect.left, y - rect.top);
        ShowsPixel(src, x, y);
      }
    }
  }

  /** Inverting the title again leaves just the mark. */
  lemma TitleTakenBack(now: seq<Byte>, back: seq<Byte>, lit: seq<Byte>, before: seq<Byte>, e: Extent, popup: Rect,
                       anchor: Rect, clip: Region)
    requires Inverted(lit, before, e, anchor, clip.data) && Marked(back, lit, e, popup, clip)
    requires Inverted(now, back, e, anchor, clip.data)
    ensures Closed(now, before, e, popup, anchor, clip)
  {
    hide Pixel, Contains, OnMark;
  }

  /** A popup that has opened and closed leaves every byte as it was if and only if its mark was there before. A menu
      with items has no mark. */
  lemma ClosedRestores(now: seq<Byte>, before: seq<Byte>, e: Extent, popup: Rect, anchor: Rect, clip: Region)
    requires Closed(now, before, e, popup, anchor, clip)
    ensures now == before <==> MarkIsThere(before, e, popup, anchor, clip)
    ensures popup.top < popup.bottom ==> now == before
  {
    hide Pixel, Contains, OnFlatFrame, MarkInk;
    if MarkIsThere(before, e, popup, anchor, clip) {
      SamePixels(now, before, e);
    }
  }

  /** On a screen that is clear just below the title, a menu without items leaves a mark. */
  lemma EmptyMenuLeavesMark(before: seq<Byte>, e: Extent, anchor: Rect, clip: Region)
    requires |before| == e.Size() && Int16Rect(anchor) && BoundsFit([], anchor)
    requires e.Has(anchor.left, anchor.bottom) && !Pixel(before, e, anchor.left, anchor.bottom)
    requires Contains(clip.data, anchor.left, anchor.bottom)
    ensures !MarkIsThere(before, e, PopUpBounds([], anchor), anchor, clip)
  {
    hide ToInt16, Pixel, Contains, WidestItem;
    BoundsHoldItems([], anchor);
    assert OnMark(PopUpBounds([], anchor), clip, anchor.left, anchor.bottom);
    assert MarkInk(anchor, clip, anchor.left, anchor.bottom);
  }

  /** The border of a menu without items, and nothing else. */
  lemma FlatDrawn(drawn: seq<Byte>, framed: seq<Byte>, boxed: seq<Byte>, lit: seq<Byte>, e: Extent, popup: Rect,
                  clip: Region)
    requires popup.bottom <= popup.top
    requires ChangedWithin(boxed, lit, e, popup, clip.data) && ChangedWithin(drawn, framed, e, popup, clip.data)
    requires FlatFramed(framed, boxed, e, popup, clip, HIGHLIGHT_PATTERN, Copy)
    ensures DrawnOver(drawn, lit, e, popup, clip)
  {
    hide Pixel, Contains, OnFlatFrame, Ink;
    forall x, y | e.Has(x, y)
      ensures Pixel(drawn, e, x, y) == (OnMark(popup, clip, x, y) || Pixel(lit, e, x, y))
    {
      assert FlatPixel(framed, boxed, e, popup, clip, HIGHLIGHT_PATTERN, Copy, x, y);
      AllInk(0, popup.left, x, y);
    }
  }

  lemma BoxDrawn(drawn: seq<Byte>, lit: seq<Byte>, e: Extent, popup: Rect, clip: Region)
    requires popup.top < popup.bottom && ChangedWithin(drawn, lit, e, popup, clip.data)
    ensures DrawnOver(drawn, lit, e, popup, clip)
  {
    hide Pixel, Contains, OnFlatFrame;
  }

  // ---- The popup --------------------------------------------------------------------------------

  /** Inverts a rect for as long as it lives. */
  class AutoHiliteRect {
    const rect: Rect
    const screen: BitmapImage

    constructor (rect: Rect, screen: BitmapImage)
      requires screen.Valid() && Int16Rect(rect)
      modifies screen.bitmap
      ensures this.rect == rect && this.screen == screen
      ensures Inverted(screen.bitmap[..], old(screen.bitmap[..]), screen.Extent(), rect, screen.clip.data)
    {
      this.rect, this.screen := rect, screen;
      new;
      screen.FillRect(rect, HIGHLIGHT_PATTERN, XOr);
      XOrInverts(screen.bitmap[..], old(screen.bitmap[..]), screen.Extent(), rect, screen.clip.data);
    }

    method Close()
      requires screen.Valid() && Int16Rect(rect)
      modifies screen.bitmap
      ensures Inverted(screen.bitmap[..], old(screen.bitmap[..]), screen.Extent(), rect, screen.clip.data)
    {
      screen.FillRect(rect, HIGHLIGHT_PATTERN, XOr);
      XOrInverts(screen.bitmap[..], old(screen.bitmap[..]), screen.Extent(), rect, screen.clip.data);
    }
  }

  function ItemWidth(item: MenuItem): nat {
    |item.title| * MENU_ITEM_GLYPH_WIDTH
    + if item.keyboardShortcut != 0 then MINIMUM_SHORTCUT_PADDING + MENU_ITEM_GLYPH_WIDTH * 2 else 0
  }

  /** `w` is the least width that holds every item. */
  ghost predicate IsWidest(w: int, items: seq<MenuItem>) {
    && (forall i :: 0 <= i < |items| ==> ItemWidth(items[i]) <= w)
    && (w == 0 || exists i :: 0 <= i < |items| && ItemWidth(items[i]) == w)
  }

  function WidestItem(items: seq<MenuItem>): (w: nat)
    ensures IsWidest(w, items)
  {
    if items == [] then 0 else
      var n := |items| - 1;
      assert forall i :: 0 <= i < n ==> items[i] == items[..n][i];
      Max(WidestItem(items[..n]), ItemWidth(items[n]))
  }

  /** Where the popup of a menu appears: below its title, wide enough for every item and its shortcut. */
  function PopUpBounds(items: seq<MenuItem>, anchor: Rect): Rect {
    NewRect(anchor.left, anchor.bottom, WidestItem(items) + MENU_ITEM_PADDING_WIDTH * 2, |items| * MENU_ITEM_HEIGHT)
  }

  method GetPopUpBounds(items: seq<MenuItem>, anchor: Rect) returns (bounds: Rect)
    ensures bounds == PopUpBounds(items, anchor)
  {
    var width, height := 0, 0;
    for i := 0 to |items|
      invariant height == i * MENU_ITEM_HEIGHT
      invariant width == WidestItem(items[..i])
    {
      assert items[..i + 1][..i] == items[..i];
      height := height + MENU_ITEM_HEIGHT;
      var itemWidth := |items[i].title| * MENU_ITEM_GLYPH_WIDTH;
      if items[i].keyboardShortcut != 0 {
        itemWidth := itemWidth + (MINIMUM_SHORTCUT_PADDING + MENU_ITEM_GLYPH_WIDTH * 2);
      }
      width := Max(width, itemWidth);
    }
    assert items[..|items|] == items;
    bounds := NewRect(anchor.left, anchor.bottom, width + MENU_ITEM_PADDING_WIDTH * 2, height);
  }

  function MenuItemBounds(popup: Rect, index: nat): Rect {
    var top := ToInt16(popup.top + index * MENU_ITEM_HEIGHT);
    Rect(top, popup.left, ToInt16(top + MENU_ITEM_HEIGHT), popup.right)
  }

  predicate IsMenuItemEnabled(menu: Menu, index: nat) {
    index + 1 < |menu.enabled| && menu.enabled[index + 1]
  }

  /** The item under the point, counted from one, if it can be chosen. */
  function ItemAt(menu: Menu, popup: Rect, x: int, y: int): nat {
    if !PointInRect(x, y, popup) then NO_MENU_ITEM
    else
      var index := (y - popup.top) / MENU_ITEM_HEIGHT;
      if IsMenuItemEnabled(menu, index) then index + 1 else NO_MENU_ITEM
  }

  /** The point is in the popup, on its item `i`, counted from one, and that item can be chosen. */
  ghost predicate OnItem(menu: Menu, popup: Rect, x: int, y: int, i: int) {
    && popup.left <= x < popup.right && popup.top <= y < popup.bottom
    && 1 <= i && popup.top + 12 * (i - 1) <= y < popup.top + 12 * i
    && i < |menu.enabled| && menu.enabled[i]
  }

  lemma ItemIs(menu: Menu, popup: Rect, x: int, y: int)
    ensures forall i :: OnItem(menu, popup, x, y, i) ==> ItemAt(menu, popup, x, y) == i
    ensures (forall i :: !OnItem(menu, popup, x, y, i)) ==> ItemAt(menu, popup, x, y) == 0
  {
    var item := ItemAt(menu, popup, x, y);
    if item != 0 {
      assert OnItem(menu, popup, x, y, item);
    }
  }

  /** All the pixels to be saved lie in the screen's memory, and the clip arithmetic fits 16 bits. The popup may hang
      over the right edge, and it may be empty. */
  ghost predicate OnScreen(popup: Rect, screen: BitmapImage)
    reads screen
  {
    && 0 <= popup.top <= popup.bottom && 1 <= popup.bottom && 0 <= popup.left < popup.right
    && InMemory(popup, screen.Extent()) && ClipOffsetsFit(screen.clip.rect, popup)
  }

  predicate WholeItems(popup: Rect) {
    (popup.bottom - popup.top) % MENU_ITEM_HEIGHT == 0
  }

  /** The bounds of the popup can be computed in 16 bits. */
  predicate BoundsFit(items: seq<MenuItem>, anchor: Rect) {
    IsInt16(anchor.bottom + |items| * MENU_ITEM_HEIGHT)
        && IsInt16(anchor.left + (WidestItem(items) + MENU_ITEM_PADDING_WIDTH * 2))
  }

  lemma BoundsHoldItems(items: seq<MenuItem>, anchor: Rect)
    requires Int16Rect(anchor) && BoundsFit(items, anchor)
    ensures var popup := PopUpBounds(items, anchor);
            popup == Rect(anchor.bottom, anchor.left, anchor.bottom + |items| * MENU_ITEM_HEIGHT,
                          anchor.left + (WidestItem(items) + MENU_ITEM_PADDING_WIDTH * 2))
            && WholeItems(popup)
  {
    hide ToInt16, WidestItem;
  }

  /** The popup in numbers: `w` is the width of its widest item, eight pixels a letter and 28 more for a shortcut. */
  lemma PopUpIs(items: seq<MenuItem>, anchor: Rect) returns (w: nat)
    requires Int16Rect(anchor) && BoundsFit(items, anchor)
    ensures PopUpBounds(items, anchor)
            == Rect(anchor.bottom, anchor.left, anchor.bottom + 12 * |items|, anchor.left + w + 12)
    ensures forall i :: 0 <= i < |items| ==>
              8 * |items[i].title| + (if items[i].keyboardShortcut != 0 then 28 else 0) <= w
    ensures w == 0 || exists i :: 0 <= i < |items|
                                  && w == 8 * |items[i].title| + if items[i].keyboardShortcut != 0 then 28 else 0
  {
    w := WidestItem(items);
    BoundsHoldItems(items, anchor);
    hide ToInt16, WidestItem, PopUpBounds;
    assert forall i :: 0 <= i < |items| ==>
        ItemWidth(items[i]) == 8 * |items[i].title| + if items[i].keyboardShortcut != 0 then 28 else 0;
  }

  lemma ItemFits(popup: Rect, y: int)
    requires ValidRect(popup) && WholeItems(popup) && popup.top <= y < popup.bottom
    ensures var index := (y - popup.top) / MENU_ITEM_HEIGHT;
            0 <= index && MenuItemBounds(popup, index)
                          == Rect(popup.top + index * 12, popup.left, popup.top + index * 12 + 12, popup.right)
            && popup.top + index * 12 + 12 <= popup.bottom && Int16Rect(MenuItemBounds(popup, index))
            && popup.top + index * 12 <= y < popup.top + index * 12 + 12
  {
  }

  class MenuPopUp {
    const screen: BitmapImage
    const menu: Menu
    const anchorRect: Rect
    const anchorHilite: AutoHiliteRect
    const popupRect: Rect
    const savedBitmap: BitmapImage
    var hoveredRect: AutoHiliteRect?

    ghost const before: seq<Byte>  // the screen before the popup appeared
    ghost const lit: seq<Byte>     // ... with the menu title highlighted
    ghost const drawn: seq<Byte>   // ... and the popup drawn
    ghost const clip: Region

    ghost predicate Valid()
      reads this, screen, screen.bitmap, savedBitmap, savedBitmap.bitmap
    {
      && Fixed()
      && Shown(screen.bitmap[..], if hoveredRect == null then None else Some(hoveredRect.rect))
      && (hoveredRect != null ==> hoveredRect.screen == screen && Int16Rect(hoveredRect.rect))
    }

    /** What does not change while the popup is open. */
    ghost predicate Fixed()
      reads this, screen, savedBitmap, savedBitmap.bitmap
    {
      && screen.Valid() && savedBitmap.Valid() && savedBitmap.bitmap != screen.bitmap
      && screen.clip == clip && OnScreen(popupRect, screen) && WholeItems(popupRect)
      && SameSize(savedBitmap, popupRect)
      && anchorHilite.screen == screen && anchorHilite.rect == anchorRect && Int16Rect(anchorRect)
      && Inverted(lit, before, screen.Extent(), anchorRect, clip.data)
      && HoldsCopy(savedBitmap.bitmap[..], savedBitmap.Extent(), lit, screen.Extent(), popupRect)
      && DrawnOver(drawn, lit, screen.Extent(), popupRect, clip)
    }

    /** The screen shows the popup, with at most one item inverted. */
    ghost predicate Shown(bytes: seq<Byte>, hovered: Option<Rect>) {
      match hovered
      case None => bytes == drawn
      case Some(rect) => Inverted(bytes, drawn, screen.Extent(), rect, clip.data)
    }

    constructor (screen: BitmapImage, menu: Menu, items: seq<MenuItem>, anchorRect: Rect)
      requires screen.Valid() && Int16Rect(anchorRect)
      requires BoundsFit(items, anchorRect) && OnScreen(PopUpBounds(items, anchorRect), screen)
      modifies screen.bitmap
      ensures Valid() && this.screen == screen && this.menu == menu && popupRect == PopUpBounds(items, anchorRect)
      ensures this.anchorRect == anchorRect && clip == screen.clip
      ensures before == old(screen.bitmap[..]) && hoveredRect == null
      ensures fresh(savedBitmap) && fresh(savedBitmap.bitmap)
    {
      hide *;
      this.screen, this.menu, this.anchorRect := screen, menu, anchorRect;
      this.clip := screen.clip;
      before := screen.bitmap[..];
      anchorHilite := new AutoHiliteRect(anchorRect, screen);
      lit := screen.bitmap[..];
      var popup := GetPopUpBounds(items, anchorRect);
      BoundsHoldItems(items, anchorRect);
      popupRect := popup;
      var saved := SaveUnder(screen, popup);
      savedBitmap := saved;
      DrawPopUp(screen, popup);
      drawn := screen.bitmap[..];
      hoveredRect := null;
      new;
      Opened();
    }

    lemma Opened()
      requires screen.Valid() && savedBitmap.Valid() && savedBitmap.bitmap != screen.bitmap
      requires screen.clip == clip && OnScreen(popupRect, screen) && WholeItems(popupRect)
      requires SameSize(savedBitmap, popupRect)
      requires anchorHilite.screen == screen && anchorHilite.rect == anchorRect && Int16Rect(anchorRect)
      requires Inverted(lit, before, screen.Extent(), anchorRect, clip.data)
      requires HoldsCopy(savedBitmap.bitmap[..], savedBitmap.Extent(), lit, screen.Extent(), popupRect)
      requires DrawnOver(drawn, lit, screen.Extent(), popupRect, clip)
      requires screen.bitmap[..] == drawn && hoveredRect == null
      ensures Valid()
    {
    }

    /** The item under the point, which is now the one highlighted; outside the popup the highlight stays where it
        was. */
    method GetHoveredMenuItem(x: int, y: int) returns (item: nat)
      requires Valid()
      modifies this, screen.bitmap
      ensures Valid() && item == ItemAt(menu, popupRect, x, y)
      ensures forall i :: OnItem(menu, popupRect, x, y, i) ==> item == i
      ensures (forall i :: !OnItem(menu, popupRect, x, y, i)) ==> item == 0
      ensures !PointInRect(x, y, popupRect) ==>
                hoveredRect == old(hoveredRect) && screen.bitmap[..] == old(screen.bitmap[..])
      ensures PointInRect(x, y, popupRect) && item == NO_MENU_ITEM ==> hoveredRect == null
      ensures item != NO_MENU_ITEM ==> hoveredRect != null && hoveredRect.rect == MenuItemBounds(popupRect, item - 1)
    {
      hide Valid, MenuItemBounds, IsMenuItemEnabled, Int16Rect, OnItem;
      ItemIs(menu, popupRect, x, y);
      if !PointInRect(x, y, popupRect) {
        return NO_MENU_ITEM;
      }
      var index := (y - popupRect.top) / MENU_ITEM_HEIGHT;
      if !IsMenuItemEnabled(menu, index) {
        ClearHover();
        return NO_MENU_ITEM;
      }
      InsidePopUp(x, y);
      Hover(MenuItemBounds(popupRect, index));
      item := index + 1;
    }

    lemma InsidePopUp(x: int, y: int)
      requires Valid() && PointInRect(x, y, popupRect)
      ensures var index := (y - popupRect.top) / MENU_ITEM_HEIGHT;
              0 <= index && Int16Rect(MenuItemBounds(popupRect, index))
    {
      OnScreenRect(popupRect, screen);
      ItemFits(popupRect, y);
    }

    /** Ends the highlight, if there is one. */
    method ClearHover()
      requires Valid()
      modifies this, screen.bitmap
      ensures Valid() && hoveredRect == null
    {
      hide Inverted, DrawnOver, HoldsCopy, OnScreen, BitmapImage.Valid;
      if hoveredRect != null {
        ghost var now := screen.bitmap[..];
        hoveredRect.Close();
        InvertTwice(screen.bitmap[..], now, drawn, screen.Extent(), hoveredRect.rect, clip.data);
        hoveredRect := null;
      }
    }

    /** The new highlight is drawn before the old one is taken back. */
    method Hover(rect: Rect)
      requires Valid() && Int16Rect(rect)
      modifies this, screen.bitmap
      ensures Valid() && hoveredRect != null && hoveredRect.rect == rect
    {
      hide Inverted, DrawnOver, HoldsCopy, OnScreen, BitmapImage.Valid;
      ghost var b := screen.bitmap[..];
      var hilite := new AutoHiliteRect(rect, screen);
      ghost var c := screen.bitmap[..];
      if hoveredRect != null {
        hoveredRect.Close();
        InvertInstead(screen.bitmap[..], c, b, drawn, screen.Extent(), hoveredRect.rect, rect, clip.data);
      }
      hoveredRect := hilite;
    }

    /** Closing takes back the highlight, the popup and the title's highlight, in that order. Every byte is back if
        and only if the popup leaves no new mark, as none does whose menu has items. */
    method Close()
      requires Valid()
      modifies this, screen.bitmap
      ensures Closed(screen.bitmap[..], before, screen.Extent(), popupRect, anchorRect, clip)
      ensures |before| == screen.Extent().Size()
      ensures screen.bitmap[..] == before <==> MarkIsThere(before, screen.Extent(), popupRect, anchorRect, clip)
      ensures popupRect.top < popupRect.bottom ==> screen.bitmap[..] == before
      ensures screen.Valid()
    {
      hide Inverted, DrawnOver, HoldsCopy, BitmapImage.Valid, BitmapImage.Extent, Marked, Closed, MarkIsThere, OnScreen;
      ClearHover();
      RestoreUnder(screen, savedBitmap, popupRect, drawn, lit);
      ghost var back := screen.bitmap[..];
      anchorHilite.Close();
      TitleTakenBack(screen.bitmap[..], back, lit, before, screen.Extent(), popupRect, anchorRect, clip);
      ClosedSize(screen.bitmap[..], before, screen.Extent(), popupRect, anchorRect, clip);
      ClosedRestores(screen.bitmap[..], before, screen.Extent(), popupRect, anchorRect, clip);
    }
  }

  lemma ClosedSize(now: seq<Byte>, before: seq<Byte>, e: Extent, popup: Rect, anchor: Rect, clip: Region)
    requires Closed(now, before, e, popup, anchor, clip)
    ensures |now| == |before| == e.Size()
  {
  }

  ghost predicate SameSize(image: BitmapImage, rect: Rect) {
    image.width == rect.right - rect.left && image.height == rect.bottom - rect.top
  }

  lemma OnScreenRect(popup: Rect, screen: BitmapImage)
    requires screen.Valid() && OnScreen(popup, screen)
    ensures ValidRect(popup) && Int16Rect(popup) && Sides16(popup)
    ensures 0 <= popup.top <= popup.bottom && 1 <= popup.bottom && 0 <= popup.left < popup.right
    ensures NormalizeRect(popup) == Rect(0, 0, popup.bottom - popup.top, popup.right - popup.left)
    ensures RectWidth(popup) == popup.right - popup.left <= INT16_MAX
            && RectHeight(popup) == popup.bottom - popup.top <= INT16_MAX
    ensures InMemory(popup, screen.Extent())
    ensures InMemory(NormalizeRect(popup), Extent(popup.right - popup.left, popup.bottom - popup.top))
    ensures ClipOffsetsFit(screen.clip.rect, popup)
  {
    NormalizeKeepsExtent(popup);
    WholeInMemory(Extent(popup.right - popup.left, popup.bottom - popup.top));
  }

  /** All of an image lies in its memory. */
  lemma WholeInMemory(e: Extent)
    requires e.width <= INT16_MAX && e.height <= INT16_MAX
    ensures InMemory(Rect(0, 0, e.height, e.width), e)
  {
    if e.height > 0 {
      RowsFit(e.RowBytes(), e.height - 1, e.height);
    }
  }

  /** Keeps the part of the screen that a popup is about to cover. */
  method SaveUnder(screen: BitmapImage, popup: Rect) returns (saved: BitmapImage)
    requires screen.Valid() && OnScreen(popup, screen)
    ensures fresh(saved) && fresh(saved.bitmap) && saved.Valid() && SameSize(saved, popup)
    ensures HoldsCopy(saved.bitmap[..], saved.Extent(), screen.bitmap[..], screen.Extent(), popup)
  {
    OnScreenRect(popup, screen);
    screen.SizeFits();
    saved := new BitmapImage(RectWidth(popup), RectHeight(popup));
    saved.RowBytesIs();
    hide BitmapImage.Valid, OnScreen, Blitted, HoldsCopy, ToInt16;
    ghost var was := saved.bitmap[..];
    var beyond: Byte := *;
    saved.CopyBitmap(screen, popup, NormalizeRect(popup), beyond);
    CopyHeld(saved.bitmap[..], was, saved.Extent(), saved.clip.data, screen.bitmap[..], screen.Extent(), popup);
  }

  /** A picture of which nothing is known but its size. */
  method AnyPicture(width: nat, height: nat) returns (picture: BitmapImage)
    requires width <= INT16_MAX && height <= INT16_MAX
    ensures fresh(picture) && fresh(picture.bitmap) && picture.Valid()
    ensures picture.width == width && picture.height == height
    ensures |picture.bitmap[..]| == picture.Extent().Size()
  {
    hide *;
    picture := new BitmapImage(width, height);
    picture.SizeFits();
    for j := 0 to picture.bitmap.Length
      invariant picture.Valid()
    {
      var b: Byte := *;
      picture.bitmap[j] := b;
    }
  }

  lemma SizeIs(image: BitmapImage)
    ensures image.Extent() == Extent(image.width, image.height)
  {
  }

  /** Copies a picture of the popup's size onto it. */
  method CopyOnto(screen: BitmapImage, picture: BitmapImage, popup: Rect)
    requires screen.Valid() && OnScreen(popup, screen) && picture.Valid() && picture.bitmap != screen.bitmap
    requires picture.width == popup.right - popup.left && picture.height == popup.bottom - popup.top
    modifies screen.bitmap
    ensures Blitted(screen.bitmap[..], old(screen.bitmap[..]), screen.Extent(), popup, screen.clip.data,
                    Source(picture.bitmap[..], picture.Extent(), -popup.left, -popup.top))
  {
    hide *;
    OnScreenRect(popup, screen);
    SizeIs(picture);
    var beyond: Byte := *;
    screen.CopyBitmap(picture, NormalizeRect(popup), popup, beyond);
  }

  /** `now` is `was` with an empty box inside the clip: clear, with a border one pixel wide. */
  ghost predicate Boxed(now: seq<Byte>, was: seq<Byte>, e: Extent, popup: Rect, clip: seq<int>) {
    && |now| == |was| == e.Size()
    && forall x, y :: e.Has(x, y) ==>
         Pixel(now, e, x, y)
         == if PointInRect(x, y, popup) && Contains(clip, x, y)
            then x == popup.left || x == popup.right - 1 || y == popup.top || y == popup.bottom - 1
            else Pixel(was, e, x, y)
  }

  lemma BoxedBy(framed: seq<Byte>, cleared: seq<Byte>, was: seq<Byte>, e: Extent, popup: Rect, clip: seq<int>)
    requires popup.top < popup.bottom && popup.left < popup.right
    requires Painted(cleared, was, e, Box(popup), popup.top, popup.left, clip, MENU_POPUP_PATTERN, Copy)
    requires Painted(framed, cleared, e, Frame(popup, true, popup.bottom - 1, popup.bottom - 1, true), 0, popup.left,
                     clip, HIGHLIGHT_PATTERN, Copy)
    ensures Boxed(framed, was, e, popup, clip)
  {
    hide Pixel, Contains, Ink;
    var frame := Frame(popup, true, popup.bottom - 1, popup.bottom - 1, true);
    forall x, y | e.Has(x, y)
      ensures Pixel(framed, e, x, y)
              == if PointInRect(x, y, popup) && Contains(clip, x, y)
                 then x == popup.left || x == popup.right - 1 || y == popup.top || y == popup.bottom - 1
                 else Pixel(was, e, x, y)
    {
      assert ShapePixel(cleared, was, e, Box(popup), popup.top, popup.left, clip, MENU_POPUP_PATTERN, Copy, x, y);
      assert ShapePixel(framed, cleared, e, frame, 0, popup.left, clip, HIGHLIGHT_PATTERN, Copy, x, y);
      NoInk(popup.top, popup.left, x, y);
      AllInk(0, popup.left, x, y);
      PaintedOnce(Copy, Pixel(was, e, x, y), Ink(MENU_POPUP_PATTERN, popup.top, popup.left, x, y),
                  PointInRect(x, y, popup));
      CombineTimesIs(Copy, Pixel(cleared, e, x, y), Ink(HIGHLIGHT_PATTERN, 0, popup.left, x, y), Hits(frame, x, y));
    }
  }

  lemma NoInk(inkTop: int, inkLeft: int, x: int, y: int)
    ensures !Ink(MENU_POPUP_PATTERN, inkTop, inkLeft, x, y)
  {
  }

  /** Draws the popup's box and border. A box without height is the border alone. */
  method DrawBox(screen: BitmapImage, popup: Rect)
    requires screen.Valid() && OnScreen(popup, screen)
    modifies screen.bitmap
    ensures popup.top < popup.bottom ==>
              Boxed(screen.bitmap[..], old(screen.bitmap[..]), screen.Extent(), popup, screen.clip.data)
    ensures DrawnOver(screen.bitmap[..], old(screen.bitmap[..]), screen.Extent(), popup, screen.clip)
  {
    hide *;
    OnScreenRect(popup, screen);
    PatternRows();
    ghost var e, clip := screen.Extent(), screen.clip;
    ghost var a := screen.bitmap[..];
    screen.FillRect(popup, MENU_POPUP_PATTERN, Copy);
    ghost var b := screen.bitmap[..];
    screen.FrameRect(popup, HIGHLIGHT_PATTERN, Copy);
    ghost var c := screen.bitmap[..];
    BoxChanges(b, a, e, popup, clip.data, MENU_POPUP_PATTERN, Copy);
    if popup.top < popup.bottom {
      BoxedBy(c, b, a, e, popup, clip.data);
      FrameChanges(c, b, e, popup, clip.data, HIGHLIGHT_PATTERN, Copy);
      ChangedMore(c, b, a, e, popup, clip.data);
      BoxDrawn(c, a, e, popup, clip);
    } else {
      screen.SizeFits();
      NothingChanged(c, e, popup, clip.data);
      FlatDrawn(c, c, b, a, e, popup, clip);
    }
  }

  lemma PatternRows()
    ensures |MENU_POPUP_PATTERN| == 8 && |HIGHLIGHT_PATTERN| == 8
  {
  }

  lemma NothingChanged(bytes: seq<Byte>, e: Extent, rect: Rect, clip: seq<int>)
    ensures |bytes| == e.Size() ==> ChangedWithin(bytes, bytes, e, rect, clip)
  {
  }

  /** Draws the popup: its box, then its text and separators, which may look like anything. */
  method DrawPopUp(screen: BitmapImage, popup: Rect)
    requires screen.Valid() && OnScreen(popup, screen)
    modifies screen.bitmap
    ensures DrawnOver(screen.bitmap[..], old(screen.bitmap[..]), screen.Extent(), popup, screen.clip)
  {
    hide *;
    OnScreenRect(popup, screen);
    var text := AnyPicture(RectWidth(popup), RectHeight(popup));
    ghost var e, clip := screen.Extent(), screen.clip;
    ghost var a := screen.bitmap[..];
    DrawBox(screen, popup);
    ghost var c := screen.bitmap[..];
    CopyOnto(screen, text, popup);
    text.SizeFits();
    SourceIsValid(Source(text.bitmap[..], text.Extent(), -popup.left, -popup.top));
    BlitChanges(screen.bitmap[..], c, e, popup, clip.data,
                Source(text.bitmap[..], text.Extent(), -popup.left, -popup.top));
    DrawnMore(screen.bitmap[..], c, a, e, popup, clip);
  }

  /** What is drawn inside the popup on top of it. */
  lemma DrawnMore(text: seq<Byte>, drawn: seq<Byte>, lit: seq<Byte>, e: Extent, popup: Rect, clip: Region)
    requires DrawnOver(drawn, lit, e, popup, clip) && ChangedWithin(text, drawn, e, popup, clip.data)
    ensures DrawnOver(text, lit, e, popup, clip)
  {
    hide Pixel, Contains, OnFlatFrame;
  }

  /** Puts back what a popup covered; the mark of a menu without items stays. */
  method RestoreUnder(screen: BitmapImage, saved: BitmapImage, popup: Rect, ghost drawn: seq<Byte>,
                      ghost lit: seq<Byte>)
    requires screen.Valid() && OnScreen(popup, screen) && screen.bitmap[..] == drawn
    requires saved.Valid() && saved.bitmap != screen.bitmap && SameSize(saved, popup)
    requires HoldsCopy(saved.bitmap[..], saved.Extent(), lit, screen.Extent(), popup)
    requires DrawnOver(drawn, lit, screen.Extent(), popup, screen.clip)
    modifies screen.bitmap
    ensures Marked(screen.bitmap[..], lit, screen.Extent(), popup, screen.clip)
  {
    hide BitmapImage.Valid, OnScreen, Blitted, HoldsCopy, DrawnOver, Marked, ToInt16, PointInRect;
    CopyOnto(screen, saved, popup);
    CopyBack(screen.bitmap[..], drawn, lit, screen.Extent(), popup, screen.clip, saved.bitmap[..], saved.Extent());
  }
}
