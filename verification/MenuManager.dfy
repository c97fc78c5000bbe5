/** Menu tracking (`emu/menu_manager.cc`): from mouse down to mouse up, over any path of the mouse. */
module MenuManagers {
  import opened Geometry
  import opened Options
  import opened Bits
  import opened Raster
  import opened Bitmaps
  import opened MenuPopUps

  const MENU_BAR_WIDTH_PADDING := 6
  const MENU_BAR_ITEM_WIDTH_PADDING := 4
  const MENU_ICON_WIDTH := 16
  const APPLE: char := 0x14 as char

  predicate IsAppleMenu(menu: Menu) {
    menu.title == [APPLE]
  }

  function TitleWidth(menu: Menu): nat {
    (if IsAppleMenu(menu) then MENU_ICON_WIDTH else |menu.title| * 8) + MENU_BAR_ITEM_WIDTH_PADDING * 2
  }

  /** Where the title of menu `i` starts. */
  function TitleLeft(menus: seq<Menu>, i: nat): int
    requires i <= |menus|
  {
    if i == 0 then MENU_BAR_WIDTH_PADDING else TitleLeft(menus, i - 1) + TitleWidth(menus[i - 1])
  }

  function TitleRect(menus: seq<Menu>, i: nat): Rect
    requires i < |menus|
  {
    NewRect(TitleLeft(menus, i), 0, TitleWidth(menus[i]), MENU_BAR_HEIGHT)
  }

  /** The titles in numbers: the first starts at column six, each takes eight pixels a letter and eight more, and the
      apple 24; they fill the top twenty rows. */
  lemma TitleIs(menus: seq<Menu>, i: nat, pt: Point)
    requires i < |menus|
    ensures TitleLeft(menus, 0) == 6
    ensures TitleLeft(menus, i + 1)
            == TitleLeft(menus, i) + if menus[i].title == [0x14 as char] then 24 else 8 * |menus[i].title| + 8
    ensures OnTitle(menus, i, pt) <==> TitleLeft(menus, i) < pt.x < TitleLeft(menus, i + 1) && pt.y < 20
    ensures IsInt16(TitleLeft(menus, i)) && IsInt16(TitleLeft(menus, i + 1)) ==>
              TitleRect(menus, i) == Rect(0, TitleLeft(menus, i), 20, TitleLeft(menus, i + 1))
  {
  }

  predicate OnTitle(menus: seq<Menu>, i: nat, pt: Point)
    requires i < |menus|
  {
    TitleLeft(menus, i) < pt.x < TitleLeft(menus, i + 1) && pt.y < MENU_BAR_HEIGHT
  }

  /** The menu whose title is under the point, looking from menu `i` on. */
  function HitFrom(menus: seq<Menu>, i: nat, pt: Point): (hit: Option<nat>)
    requires i <= |menus|
    ensures match hit
            case Some(k) =>
              i <= k < |menus| && OnTitle(menus, k, pt) && forall j :: i <= j < k ==> !OnTitle(menus, j, pt)
            case None => forall j :: i <= j < |menus| ==> !OnTitle(menus, j, pt)
    decreases |menus| - i
  {
    if i == |menus| then None else if OnTitle(menus, i, pt) then Some(i) else HitFrom(menus, i + 1, pt)
  }

  /** The menu that is open after the mouse has been at each of the points: the last one whose title it crossed. */
  function OpenAfter(menus: seq<Menu>, points: seq<Point>): (k: Option<nat>)
    ensures k.Some? ==> k.value < |menus|
  {
    if points == [] then None else
      var n := |points| - 1;
      var hit := HitFrom(menus, 0, points[n]);
      if hit.Some? then hit else OpenAfter(menus, points[..n])
  }

  /** The menus opened so far, after a point with this title under it. A menu that is open already stays so. */
  function Next(shown: seq<nat>, hit: Option<nat>): seq<nat> {
    if hit.None? || (shown != [] && shown[|shown| - 1] == hit.value) then shown else shown + [hit.value]
  }

  /** The menus that open, one after the other, as the mouse goes through the points. */
  function Opened(menus: seq<Menu>, points: seq<Point>): (shown: seq<nat>)
    ensures AreMenus(shown, menus)
  {
    if points == [] then [] else
      var n := |points| - 1;
      Next(Opened(menus, points[..n]), HitFrom(menus, 0, points[n]))
  }

  predicate AreMenus(shown: seq<nat>, menus: seq<Menu>) {
    forall i :: 0 <= i < |shown| ==> shown[i] < |menus|
  }

  class MenuManager {
    const screen: BitmapImage
    var menus: seq<Menu>
    var menuItems: map<nat, seq<MenuItem>>
    var popup: MenuPopUp?

    ghost predicate Valid()
      reads this`menus, this`menuItems
    {
      && (forall i :: 0 <= i < |menus| ==> menus[i].id in menuItems)
      && (forall i, j :: 0 <= i < j < |menus| ==> menus[i].id != menus[j].id)
    }

    /** Every popup fits the screen. */
    ghost predicate PopUpsFit()
      requires Valid()
      reads this`menus, this`menuItems, screen
    {
      forall i :: 0 <= i < |menus| ==>
        var anchor := TitleRect(menus, i);
        var items := menuItems[menus[i].id];
        Int16Rect(anchor) && BoundsFit(items, anchor) && OnScreen(PopUpBounds(items, anchor), screen)
    }

    function PopUpOf(i: nat): Rect
      requires Valid() && i < |menus|
      reads this`menus, this`menuItems
    {
      PopUpBounds(menuItems[menus[i].id], TitleRect(menus, i))
    }

    constructor (screen: BitmapImage)
      ensures Valid() && this.screen == screen && menus == [] && menuItems == map[] && popup == null
    {
      this.screen := screen;
      menus, menuItems, popup := [], map[], null;
    }

    /** A menu whose id is taken is ignored. */
    method InsertMenu(menu: Menu, items: seq<MenuItem>)
      requires Valid() && popup == null
      modifies this
      ensures Valid() && popup == null
      ensures if menu.id in old(menuItems) then menus == old(menus) && menuItems == old(menuItems)
              else menus == old(menus) + [menu] && menuItems == old(menuItems)[menu.id := items]
    {
      if menu.id in menuItems {
        return;
      }
      menuItems := menuItems[menu.id := items];
      menus := menus + [menu];
    }

    /** What a pixel looks like after these menus have opened and closed: the last mark on it stays. */
    ghost predicate PixelAfter(done: seq<nat>, x: int, y: int, was: bool)
      requires Valid() && AreMenus(done, menus)
      reads this`menus, this`menuItems, screen
    {
      if done == [] then was else
        var n := |done| - 1;
        if OnMark(PopUpOf(done[n]), screen.clip, x, y) then MarkInk(TitleRect(menus, done[n]), screen.clip, x, y)
        else PixelAfter(done[..n], x, y, was)
    }

    /** `now` is `start` after these menus have opened and closed. */
    ghost predicate Traced(now: seq<Byte>, start: seq<Byte>, done: seq<nat>)
      requires Valid()
      reads this`menus, this`menuItems, screen
    {
      && AreMenus(done, menus) && |now| == |start| == screen.Extent().Size()
      && forall x, y :: screen.Extent().Has(x, y) ==>
           Pixel(now, screen.Extent(), x, y) == PixelAfter(done, x, y, Pixel(start, screen.Extent(), x, y))
    }

    /** Every pixel a menu has marked last already looked so. */
    ghost predicate MarksAreThere(start: seq<Byte>, done: seq<nat>)
      requires Valid() && AreMenus(done, menus) && |start| == screen.Extent().Size()
      reads this`menus, this`menuItems, screen
    {
      forall x, y :: screen.Extent().Has(x, y) ==>
        var was := Pixel(start, screen.Extent(), x, y);
        PixelAfter(done, x, y, was) == was
    }

    /** The popup that is up, if there is one. */
    ghost function Up(): set<object>
      reads this`popup
    {
      if popup == null then {} else {popup}
    }

    lemma UpIs()
      ensures Up() == if popup == null then {} else {popup}
    {
    }

    /** No popup is up. */
    ghost predicate Idle(done: seq<nat>, start: seq<Byte>)
      requires Valid()
      reads this, screen, screen.bitmap
    {
      popup == null && screen.Valid() && Traced(screen.bitmap[..], start, done)
    }

    /** In the middle of tracking: the popup of the last menu opened is up, the others have been and gone, and the
        screen looked like `start` before. */
    ghost predicate Tracking(shown: seq<nat>, start: seq<Byte>)
      requires Valid()
      reads this, screen, screen.bitmap, popup, if popup == null then {}
          else {popup.savedBitmap, popup.savedBitmap.bitmap}
    {
      if popup == null then shown == [] && Idle([], start) else
        && AreMenus(shown, menus) && shown != []
        && PopUpShows(popup, shown[|shown| - 1])
        && Traced(popup.before, start, shown[..|shown| - 1])
    }

    ghost predicate PopUpShows(popup: MenuPopUp, k: nat)
      requires Valid() && k < |menus|
      reads this`menus, this`menuItems, screen, screen.bitmap, popup, popup.savedBitmap, popup.savedBitmap.bitmap
    {
      && popup.screen == screen && popup.Valid() && popup.clip == screen.clip
      && popup.menu == menus[k] && popup.popupRect == PopUpOf(k) && popup.anchorRect == TitleRect(menus, k)
    }

    lemma ClosedIsTraced(now: seq<Byte>, before: seq<Byte>, start: seq<Byte>, done: seq<nat>, k: nat)
      requires Valid() && k < |menus| && Traced(before, start, done)
      requires Closed(now, before, screen.Extent(), PopUpOf(k), TitleRect(menus, k), screen.clip)
      ensures Traced(now, start, done + [k])
    {
      hide Pixel, OnMark, MarkInk, PopUpBounds, TitleRect;
      assert (done + [k])[..|done|] == done;
    }

    /** The screen is as it was if and only if the marks were there; menus with items leave none. */
    lemma TracedRestores(now: seq<Byte>, start: seq<Byte>, done: seq<nat>)
      requires Valid() && Traced(now, start, done)
      ensures now == start <==> MarksAreThere(start, done)
    {
      hide Pixel, PixelAfter, Extent.Has;
      if MarksAreThere(start, done) {
        SamePixels(now, start, screen.Extent());
      }
    }

    /** No menu among these is empty. */
    ghost predicate HaveItems(done: seq<nat>)
      requires Valid() && AreMenus(done, menus)
      reads this`menus, this`menuItems
    {
      forall i :: 0 <= i < |done| ==> menuItems[menus[done[i]].id] != []
    }

    lemma ItemsLeaveNoMark(start: seq<Byte>, done: seq<nat>)
      requires Valid() && PopUpsFit() && AreMenus(done, menus) && HaveItems(done)
      requires |start| == screen.Extent().Size()
      ensures MarksAreThere(start, done)
    {
      hide Pixel, PixelAfter, PopUpsFit, HaveItems;
      forall x, y | screen.Extent().Has(x, y)
        ensures var was := Pixel(start, screen.Extent(), x, y); PixelAfter(done, x, y, was) == was
      {
        UnmarkedPixel(done, x, y, Pixel(start, screen.Extent(), x, y));
      }
    }

    lemma {:induction false} UnmarkedPixel(done: seq<nat>, x: int, y: int, was: bool)
      requires Valid() && PopUpsFit() && AreMenus(done, menus) && HaveItems(done)
      ensures PixelAfter(done, x, y, was) == was
    {
      if done != [] {
        var n := |done| - 1;
        UnmarkedPixel(done[..n], x, y, was);
        var k := done[n];
        assert menuItems[menus[k].id] != [];
        BoundsHoldItems(menuItems[menus[k].id], TitleRect(menus, k));
        assert PopUpOf(k).top < PopUpOf(k).bottom;
      }
    }

    /** The title under the point, scanning the menu bar from the left. */
    method TitleUnder(pt: Point) returns (hit: Option<nat>)
      ensures hit == HitFrom(menus, 0, pt)
    {
      var xOffset := MENU_BAR_WIDTH_PADDING;
      for i := 0 to |menus|
        invariant xOffset == TitleLeft(menus, i)
        invariant HitFrom(menus, 0, pt) == HitFrom(menus, i, pt)
      {
        var nextXOffset := xOffset + TitleWidth(menus[i]);
        if pt.x > xOffset && pt.x < nextXOffset && pt.y < MENU_BAR_HEIGHT {
          return Some(i);
        }
        xOffset := nextXOffset;
      }
      hit := None;
    }

    /** Opens the popup of the title under the point, if any, and moves the highlight to the item under it. */
    method UpdateMenuBar(pt: Point, ghost shown: seq<nat>, ghost start: seq<Byte>) returns (ghost shown': seq<nat>)
      requires Valid() && PopUpsFit() && Tracking(shown, start)
      modifies this`popup, screen.bitmap, Up()
      ensures Tracking(shown', start)
      ensures shown' == Next(shown, HitFrom(menus, 0, pt))
      ensures popup != null ==> popup == old(popup) || fresh(popup)
    {
      hide *;
      UpIs();
      var hit := TitleUnder(pt);
      NextIs(shown, hit);
      shown' := shown;
      if hit.Some? {
        HitIsMenu(pt);
        shown' := SwitchTo(hit.value, shown, start);
      }
      if popup != null {
        var _ := Hover(pt, shown', start);
      }
    }

    lemma NextIs(shown: seq<nat>, hit: Option<nat>)
      ensures hit.None? ==> Next(shown, hit) == shown
      ensures hit.Some? ==> hit == Some(hit.value)
    {
    }

    lemma HitIsMenu(pt: Point)
      ensures HitFrom(menus, 0, pt).Some? ==> HitFrom(menus, 0, pt).value < |menus|
    {
    }

    /** Makes the popup of menu `i` the open one. The old popup goes before the new one is drawn. */
    method SwitchTo(i: nat, ghost shown: seq<nat>, ghost start: seq<Byte>) returns (ghost shown': seq<nat>)
      requires Valid() && PopUpsFit() && Tracking(shown, start) && i < |menus|
      modifies this`popup, screen.bitmap, Up()
      ensures Tracking(shown', start) && shown' == Next(shown, Some(i))
      ensures popup != null ==> popup == old(popup) || fresh(popup)
    {
      hide *;
      UpIs();
      WhichIsOpen(i, shown, start);
      shown' := Next(shown, Some(i));
      if popup != null && popup.menu.id == menus[i].id {
        return;
      }
      ClosePopUp(shown, start);
      OpenPopUp(i, shown, start);
    }

    lemma WhichIsOpen(i: nat, shown: seq<nat>, start: seq<Byte>)
      requires Valid() && Tracking(shown, start) && i < |menus|
      ensures Next(shown, Some(i)) == if popup != null && popup.menu.id == menus[i].id then shown else shown + [i]
    {
    }

    lemma PopUpIsOpen(shown: seq<nat>, start: seq<Byte>)
      requires Valid() && Tracking(shown, start)
      ensures shown == [] <==> popup == null
      ensures popup != null ==> shown[|shown| - 1] < |menus| && popup.menu == menus[shown[|shown| - 1]]
      ensures popup == null ==> Idle([], start)
    {
    }

    method ClosePopUp(ghost shown: seq<nat>, ghost start: seq<Byte>)
      requires Valid() && Tracking(shown, start)
      modifies this`popup, screen.bitmap, Up()
      ensures popup == null && Idle(shown, start)
    {
      hide BitmapImage.Valid, Closed, Traced, MarkIsThere, BitmapImage.Extent, MenuPopUp.Fixed, MenuPopUp.Shown;
      if popup != null {
        ghost var k, done := shown[|shown| - 1], shown[..|shown| - 1];
        popup.Close();
        ClosedIsTraced(screen.bitmap[..], popup.before, start, done, k);
        assert done + [k] == shown;
        popup := null;
      }
    }

    method OpenPopUp(i: nat, ghost done: seq<nat>, ghost start: seq<Byte>)
      requires Valid() && PopUpsFit() && Idle(done, start) && i < |menus|
      modifies this`popup, screen.bitmap
      ensures Tracking(done + [i], start) && fresh(popup)
    {
      hide ToInt16, WidestItem, OnScreen, BoundsFit, BitmapImage.Valid, Int16Rect, Traced;
      TracedMenus(screen.bitmap[..], start, done);
      popup := new MenuPopUp(screen, menus[i], menuItems[menus[i].id], TitleRect(menus, i));
      assert (done + [i])[..|done|] == done;
    }

    lemma TracedMenus(now: seq<Byte>, start: seq<Byte>, done: seq<nat>)
      requires Valid() && Traced(now, start, done)
      ensures AreMenus(done, menus) && |start| == screen.Extent().Size()
    {
    }

    method Hover(pt: Point, ghost shown: seq<nat>, ghost start: seq<Byte>) returns (item: nat)
      requires Valid() && popup != null && Tracking(shown, start)
      modifies popup, screen.bitmap
      ensures Tracking(shown, start)
      ensures shown != [] && shown[|shown| - 1] < |menus|
      ensures item == ItemAt(menus[shown[|shown| - 1]], PopUpOf(shown[|shown| - 1]), pt.x, pt.y)
    {
      hide Traced;
      item := popup.GetHoveredMenuItem(pt.x, pt.y);
    }

    /** Follows the mouse from `start` through `moves` until it is let go at `up`. Whatever it passes over, the screen
        ends byte for byte as it began, but for the marks of menus without items; the result is the chosen item of the
        menu that was open last. */
    method MenuSelect(start: Point, moves: seq<Point>, up: Point) returns (result: nat)
      requires Valid() && screen.Valid() && PopUpsFit() && popup == null
      modifies this`popup, screen.bitmap
      ensures Valid() && popup == null
      ensures Traced(screen.bitmap[..], old(screen.bitmap[..]), Opened(menus, [start] + moves))
      ensures screen.bitmap[..] == old(screen.bitmap[..])
              <==> MarksAreThere(old(screen.bitmap[..]), Opened(menus, [start] + moves))
      ensures HaveItems(Opened(menus, [start] + moves)) ==> screen.bitmap[..] == old(screen.bitmap[..])
      ensures var open := OpenAfter(menus, [start] + moves);
              result == if open.None? then 0 else
                var item := ItemAt(menus[open.value], PopUpOf(open.value), up.x, up.y);
                if item == NO_MENU_ITEM then 0 else menus[open.value].id * 0x1_0000 + item
      ensures var open := OpenAfter(menus, [start] + moves);
              if open.None? then result == 0 else
                && (forall i :: OnItem(menus[open.value], PopUpOf(open.value), up.x, up.y, i) ==>
                      result == menus[open.value].id * 0x1_0000 + i)
                && ((forall i :: !OnItem(menus[open.value], PopUpOf(open.value), up.x, up.y, i)) ==> result == 0)
    {
      hide *;
      UpIs();
      ghost var before := screen.bitmap[..];
      ghost var points := [start] + moves;
      NotTracking(before);
      ghost var shown := UpdateMenuBar(start, [], before);
      OpenedStep(menus, points, 0);
      for n := 0 to |moves|
        invariant Valid() && PopUpsFit() && Tracking(shown, before)
        invariant shown == Opened(menus, points[..n + 1])
        invariant popup != null ==> fresh(popup)
      {
        UpIs();
        shown := UpdateMenuBar(moves[n], shown, before);
        OpenedStep(menus, points, n + 1);
      }
      assert points[..|moves| + 1] == points;
      LastIsOpen(menus, points);
      PopUpIsOpen(shown, before);
      if popup == null {
        AllBack(shown, before);
        return 0;
      }
      var itemIndex := Hover(up, shown, before);
      ItemIs(menus[shown[|shown| - 1]], PopUpOf(shown[|shown| - 1]), up.x, up.y);
      OnItemIs(menus[shown[|shown| - 1]], PopUpOf(shown[|shown| - 1]), up);
      PopUpIsOpen(shown, before);
      UpIs();
      var id := popup.menu.id;
      ClosePopUp(shown, before);
      AllBack(shown, before);
      if itemIndex == NO_MENU_ITEM {
        return 0;
      }
      result := id * 0x1_0000 + itemIndex;
    }

    lemma OnItemIs(menu: Menu, popup: Rect, pt: Point)
      ensures NO_MENU_ITEM == 0 && forall i :: OnItem(menu, popup, pt.x, pt.y, i) ==> 1 <= i
    {
    }

    lemma AllBack(shown: seq<nat>, start: seq<Byte>)
      requires Valid() && PopUpsFit() && Idle(shown, start)
      ensures Traced(screen.bitmap[..], start, shown) && AreMenus(shown, menus) && |start| == screen.Extent().Size()
      ensures screen.bitmap[..] == start <==> MarksAreThere(start, shown)
      ensures HaveItems(shown) ==> screen.bitmap[..] == start
    {
      hide PopUpsFit, Traced, MarksAreThere, HaveItems;
      TracedMenus(screen.bitmap[..], start, shown);
      TracedRestores(screen.bitmap[..], start, shown);
      if HaveItems(shown) {
        ItemsLeaveNoMark(start, shown);
      }
    }

    lemma NotTracking(start: seq<Byte>)
      requires Valid() && screen.Valid() && popup == null && screen.bitmap[..] == start
      ensures Tracking([], start)
    {
      hide Pixel;
    }
  }

  /** The open menu is that of the last point on a title. */
  lemma {:induction false} OpenIs(menus: seq<Menu>, points: seq<Point>)
    ensures match OpenAfter(menus, points)
            case None => forall n :: 0 <= n < |points| ==> HitFrom(menus, 0, points[n]).None?
            case Some(k) =>
              exists n :: && 0 <= n < |points| && HitFrom(menus, 0, points[n]) == Some(k)
                          && forall m :: n < m < |points| ==> HitFrom(menus, 0, points[m]).None?
  {
    if points != [] {
      var n := |points| - 1;
      OpenIs(menus, points[..n]);
      if HitFrom(menus, 0, points[n]).None? && OpenAfter(menus, points[..n]).Some? {
        var k := OpenAfter(menus, points[..n]).value;
        var j :| 0 <= j < n && HitFrom(menus, 0, points[..n][j]) == Some(k)
                 && forall m :: j < m < n ==> HitFrom(menus, 0, points[..n][m]).None?;
        assert points[..n][j] == points[j];
        forall m | j < m < |points| ensures HitFrom(menus, 0, points[m]).None? {
          if m < n { assert points[..n][m] == points[m]; }
        }
      }
    }
  }

  lemma OpenedStep(menus: seq<Menu>, points: seq<Point>, n: nat)
    requires n < |points|
    ensures Opened(menus, points[..n + 1]) == Next(Opened(menus, points[..n]), HitFrom(menus, 0, points[n]))
    ensures n == 0 ==> Opened(menus, points[..n]) == []
  {
    assert points[..n + 1][..n] == points[..n] && points[..n + 1][n] == points[n];
  }

  /** The menu opened last is the last one whose title the mouse crossed. */
  lemma {:induction false} LastIsOpen(menus: seq<Menu>, points: seq<Point>)
    ensures var shown := Opened(menus, points);
            OpenAfter(menus, points) == if shown == [] then None else Some(shown[|shown| - 1])
  {
    if points != [] {
      LastIsOpen(menus, points[..|points| - 1]);
    }
  }
}
