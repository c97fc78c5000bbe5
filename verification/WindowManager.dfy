/** Window compositing and hit testing (`emu/window_manager.cc`). */
module WindowManagers {
  import opened Geometry
  import opened Regions
  import RegionOps

  const FRAME_TITLE_HEIGHT := 17
  const FRAME_WIDTH := 1

  datatype WindowType = Document | Dialog | PlainDialog | AltDialog | NoGrowDoc | MovableDialog | ZoomDoc | ZoomNoGrow

  predicate HasTitleBar(t: WindowType) {
    match t
    case Document | NoGrowDoc | MovableDialog | ZoomDoc | ZoomNoGrow => true
    case AltDialog | PlainDialog | Dialog => false
  }

  // ---- The shape of a window --------------------------------------------------------------------

  /** A window's content in screen coordinates, and the frame around it. */
  datatype Frame = Frame(titled: bool, content: Rect, structure: Rect)

  /** The frame is one pixel wide all round, with the title bar on top. */
  ghost predicate WellFramed(f: Frame) {
    && Ordered(f.content) && Ordered(f.structure) && IsInt16(f.structure.left + FRAME_TITLE_HEIGHT)
    && f.structure == Rect(f.content.top - FRAME_WIDTH - (if f.titled then FRAME_TITLE_HEIGHT else 0),
                           f.content.left - FRAME_WIDTH, f.content.bottom + FRAME_WIDTH, f.content.right + FRAME_WIDTH)
  }

  function TitleRect(f: Frame): Rect {
    f.structure.(bottom := ToInt16(f.structure.top + FRAME_TITLE_HEIGHT))
  }

  function GoAwayRect(title: Rect): Rect {
    InsetRect(title.(right := ToInt16(title.left + FRAME_TITLE_HEIGHT)), 3, 3)
  }

  /** The close box lies within its own title bar exactly when the content is at least twelve pixels wide. */
  lemma CloseBoxInTitle(f: Frame)
    requires WellFramed(f) && f.titled
    ensures f.content.right - f.content.left >= 12 <==>
            forall x, y :: PointInRect(x, y, GoAwayRect(TitleRect(f))) ==> PointInRect(x, y, TitleRect(f))
  {
    var title := TitleRect(f);
    assert title == f.structure.(bottom := f.structure.top + 17);
    var box := GoAwayRect(title);
    assert box == Rect(title.top + 3, title.left + 3, title.bottom - 3, title.left + 14);
    hide ToInt16;
    assert PointInRect(box.left + 10, box.top, box);
  }

  // ---- Hit testing ------------------------------------------------------------------------------

  datatype RegionType = None | Drag | Content | Close

  /** Which part of one window is under the point. */
  function PartAt(f: Frame, pt: Point): RegionType {
    if f.titled && PointInRect(pt.x, pt.y, GoAwayRect(TitleRect(f))) then Close
    else if f.titled && PointInRect(pt.x, pt.y, TitleRect(f)) then Drag
    else if PointInRect(pt.x, pt.y, f.content) then Content
    else None
  }

  predicate TitleFits(structure: Rect) {
    && IsInt16(structure.top) && IsInt16(structure.top + 17)
    && IsInt16(structure.left) && IsInt16(structure.left + 17)
  }

  /** The parts of a window, by where its stored rects put them: the close box is eleven pixels square, three in from
      the corner of a title bar seventeen rows high. */
  lemma PartIs(f: Frame, pt: Point)
    requires f.titled ==> TitleFits(f.structure)
    ensures var top, left := f.structure.top, f.structure.left;
            var inBox := f.titled && left + 3 <= pt.x < left + 14 && top + 3 <= pt.y < top + 14;
            var inBar := f.titled && left <= pt.x < f.structure.right && top <= pt.y < top + 17;
            && (PartAt(f, pt) == Close <==> inBox)
            && (PartAt(f, pt) == Drag <==> inBar && !inBox)
            && (PartAt(f, pt) == Content <==> PointInRect(pt.x, pt.y, f.content) && !inBar && !inBox)
  {
    if f.titled {
      var title := TitleRect(f);
      assert title == f.structure.(bottom := f.structure.top + 17);
      assert GoAwayRect(title) == Rect(title.top + 3, title.left + 3, title.top + 14, title.left + 14);
    }
    hide ToInt16, GoAwayRect, TitleRect;
  }

  /** The frontmost window with a part under the point. */
  ghost predicate HitTest(frames: seq<Frame>, pt: Point, part: RegionType, k: nat) {
    && k <= |frames| && (forall j :: 0 <= j < k ==> PartAt(frames[j], pt) == None)
    && if k < |frames| then part == PartAt(frames[k], pt) != None else part == None
  }

  lemma HitTestUnique(frames: seq<Frame>, pt: Point, part: RegionType, k: nat, part': RegionType, k': nat)
    requires HitTest(frames, pt, part, k) && HitTest(frames, pt, part', k')
    ensures part == part' && k == k'
  {
  }

  // ---- Occlusion --------------------------------------------------------------------------------

  predicate InMenuBar(screenWidth: int, x: int, y: int) {
    0 <= x < screenWidth && 0 <= y < MENU_BAR_HEIGHT
  }

  /** Some window in front of window `i`, or the menu bar, hides the pixel. */
  ghost predicate Hidden(screenWidth: int, frames: seq<Frame>, i: nat, x: int, y: int)
    requires i <= |frames|
  {
    InMenuBar(screenWidth, x, y) || exists j :: 0 <= j < i && PointInRect(x, y, frames[j].structure)
  }

  /** What one invalidation does to a window's regions: visible pixels that were pending stay pending, and pixels
      that were not visible before become pending. */
  ghost predicate DamageKept(visible: seq<int>, update: seq<int>, visible': seq<int>, update': seq<int>) {
    forall x, y :: Contains(update', x, y) <==>
                   Contains(visible', x, y) && (Contains(update, x, y) || !Contains(visible, x, y))
  }

  /** The content of window `i` that nothing hides. */
  ghost predicate ExactlyVisible(screenWidth: int, frames: seq<Frame>, i: nat, visible: seq<int>)
    requires i < |frames|
  {
    forall x, y :: Contains(visible, x, y) <==>
                   PointInRect(x, y, frames[i].content) && !Hidden(screenWidth, frames, i, x, y)
  }

  /** The part of window `i`'s frame and content that nothing hides. */
  ghost predicate ExactlyShown(screenWidth: int, frames: seq<Frame>, i: nat, shown: seq<int>)
    requires i < |frames|
  {
    forall x, y :: Contains(shown, x, y) <==>
                   PointInRect(x, y, frames[i].structure) && !Hidden(screenWidth, frames, i, x, y)
  }

  /** What is visible, and what is shown, of a window: the part of its content, or of its structure, that lies under
      neither the top twenty rows of the screen nor the structure of a window ahead. */
  lemma VisibleIs(screenWidth: int, frames: seq<Frame>, i: nat, visible: seq<int>, shown: seq<int>)
    requires i < |frames|
    requires ExactlyVisible(screenWidth, frames, i, visible) && ExactlyShown(screenWidth, frames, i, shown)
    ensures forall x, y :: Contains(visible, x, y) <==>
                           && frames[i].content.left <= x < frames[i].content.right
                           && frames[i].content.top <= y < frames[i].content.bottom
                           && !(0 <= x < screenWidth && 0 <= y < 20)
                           && forall j :: 0 <= j < i ==> !PointInRect(x, y, frames[j].structure)
    ensures forall x, y :: Contains(shown, x, y) <==>
                           && frames[i].structure.left <= x < frames[i].structure.right
                           && frames[i].structure.top <= y < frames[i].structure.bottom
                           && !(0 <= x < screenWidth && 0 <= y < 20)
                           && forall j :: 0 <= j < i ==> !PointInRect(x, y, frames[j].structure)
  {
    hide Contains;
  }

  /** No pixel is visible in two windows. */
  lemma VisibleDisjoint(screenWidth: int, frames: seq<Frame>, i: nat, j: nat, vi: seq<int>, vj: seq<int>, x: int,
                        y: int)
    requires i < j < |frames| && WellFramed(frames[i])
    requires ExactlyVisible(screenWidth, frames, i, vi) && ExactlyVisible(screenWidth, frames, j, vj)
    ensures !(Contains(vi, x, y) && Contains(vj, x, y))
  {
    hide Contains;
    if Contains(vi, x, y) {
      assert PointInRect(x, y, frames[i].structure);
    }
  }

  /** The menu bar and the shown parts of the windows cover what any of them covers, and cover it once. */
  lemma {:induction false} ShownPartition(screenWidth: int, frames: seq<Frame>, n: nat, shown: seq<seq<int>>, x: int,
                                          y: int)
    requires n <= |frames| && |shown| == |frames|
    requires forall i :: 0 <= i < n ==> ExactlyShown(screenWidth, frames, i, shown[i])
    ensures Hidden(screenWidth, frames, n, x, y) <==>
            InMenuBar(screenWidth, x, y) || exists i :: 0 <= i < n && Contains(shown[i], x, y)
    ensures InMenuBar(screenWidth, x, y) ==> forall i :: 0 <= i < n ==> !Contains(shown[i], x, y)
    ensures forall i, j :: 0 <= i < j < n ==> !(Contains(shown[i], x, y) && Contains(shown[j], x, y))
  {
    hide Contains;
    if n > 0 {
      ShownPartition(screenWidth, frames, n - 1, shown, x, y);
      assert ExactlyShown(screenWidth, frames, n - 1, shown[n - 1]);
      assert Contains(shown[n - 1], x, y) <==>
             PointInRect(x, y, frames[n - 1].structure) && !Hidden(screenWidth, frames, n - 1, x, y);
      if Hidden(screenWidth, frames, n, x, y) && !Hidden(screenWidth, frames, n - 1, x, y) {
        assert PointInRect(x, y, frames[n - 1].structure);
      }
    }
  }

  /** The point is in the close box of some window ahead of window `i`. */
  ghost predicate UnderCloseBox(frames: seq<Frame>, i: nat, pt: Point)
    requires i <= |frames|
  {
    exists j :: 0 <= j < i && frames[j].titled && PointInRect(pt.x, pt.y, GoAwayRect(TitleRect(frames[j])))
  }

  /** The parts of a window other than its close box lie within its structure, and none but the content in its
      content. */
  lemma PartsInStructure(f: Frame, pt: Point)
    requires WellFramed(f)
    ensures PartAt(f, pt) == Close <==> f.titled && PointInRect(pt.x, pt.y, GoAwayRect(TitleRect(f)))
    ensures PartAt(f, pt) != None && PartAt(f, pt) != Close ==> PointInRect(pt.x, pt.y, f.structure)
    ensures PointInRect(pt.x, pt.y, f.content) ==> PartAt(f, pt) == Content
  {
    if f.titled {
      BoxOf(f);
    }
    hide ToInt16, GoAwayRect, TitleRect;
  }

  lemma BoxOf(f: Frame)
    requires WellFramed(f) && f.titled
    ensures TitleRect(f) == f.structure.(bottom := f.structure.top + 17)
    ensures GoAwayRect(TitleRect(f))
            == Rect(f.structure.top + 3, f.structure.left + 3, f.structure.top + 14, f.structure.left + 14)
  {
  }

  /** A click on a pixel that is visible in window `i` reaches its content exactly when no close box ahead sticks out
      over it; otherwise it lands in such a box. */
  lemma VisibleIsHit(screenWidth: int, frames: seq<Frame>, i: nat, visible: seq<int>, pt: Point)
    requires i < |frames| && ExactlyVisible(screenWidth, frames, i, visible)
    requires forall j :: 0 <= j <= i ==> WellFramed(frames[j])
    requires Contains(visible, pt.x, pt.y)
    ensures HitTest(frames, pt, Content, i) <==> !UnderCloseBox(frames, i, pt)
    ensures UnderCloseBox(frames, i, pt) ==> exists k: nat :: k < i && HitTest(frames, pt, Close, k)
  {
    hide Contains, PartAt, WellFramed, GoAwayRect, TitleRect, PointInRect;
    forall j | 0 <= j < i
      ensures PartAt(frames[j], pt) ==
              if frames[j].titled && PointInRect(pt.x, pt.y, GoAwayRect(TitleRect(frames[j]))) then Close else None
    {
      PartsInStructure(frames[j], pt);
      assert !Hidden(screenWidth, frames, i, pt.x, pt.y);
    }
    PartsInStructure(frames[i], pt);
    if UnderCloseBox(frames, i, pt) {
      var j :| 0 <= j < i && frames[j].titled && PointInRect(pt.x, pt.y, GoAwayRect(TitleRect(frames[j])));
      assert PartAt(frames[j], pt) == Close;
      var k := FirstHit(frames, pt, j);
    }
  }

  lemma {:induction false} FirstHit(frames: seq<Frame>, pt: Point, j: nat) returns (k: nat)
    requires j < |frames| && PartAt(frames[j], pt) != None
    ensures k <= j && HitTest(frames, pt, PartAt(frames[k], pt), k)
  {
    hide PartAt;
    if i :| 0 <= i < j && PartAt(frames[i], pt) != None {
      k := FirstHit(frames, pt, i);
    } else {
      k := j;
    }
  }

  /** A close box of a window at least twelve pixels wide covers nothing that is visible behind it. */
  lemma WideBoxHidesNothing(screenWidth: int, frames: seq<Frame>, i: nat, visible: seq<int>, pt: Point)
    requires i < |frames| && ExactlyVisible(screenWidth, frames, i, visible) && Contains(visible, pt.x, pt.y)
    requires forall j :: 0 <= j < i ==> WellFramed(frames[j])
    requires forall j :: 0 <= j < i && frames[j].titled ==> frames[j].content.right - frames[j].content.left >= 12
    ensures !UnderCloseBox(frames, i, pt)
  {
    hide Contains, WellFramed, GoAwayRect, TitleRect;
    forall j | 0 <= j < i && frames[j].titled ensures !PointInRect(pt.x, pt.y, GoAwayRect(TitleRect(frames[j]))) {
      BoxInStructure(frames[j], pt);
      assert !Hidden(screenWidth, frames, i, pt.x, pt.y);
    }
  }

  lemma BoxInStructure(f: Frame, pt: Point)
    requires WellFramed(f) && f.titled && f.content.right - f.content.left >= 12
    ensures PointInRect(pt.x, pt.y, GoAwayRect(TitleRect(f))) ==> PointInRect(pt.x, pt.y, f.structure)
  {
    BoxOf(f);
    hide ToInt16, GoAwayRect, TitleRect;
  }

  /** A window one pixel wide takes a click on a pixel that is visible in the window behind it. */
  lemma NarrowWindowTakesClick(visible: seq<int>)
    requires ExactlyVisible(512, NarrowOverWide(), 1, visible)
    ensures Contains(visible, 105, 90) && HitTest(NarrowOverWide(), Point(105, 90), Close, 0)
  {
    var frames := NarrowOverWide();
    hide Contains;
    assert frames[0].content == Rect(100, 100, 150, 101) && frames[0].structure == Rect(82, 99, 151, 102);
    assert frames[1].content == Rect(50, 50, 250, 250);
    BoxOf(frames[0]);
    assert GoAwayRect(TitleRect(frames[0])) == Rect(85, 102, 96, 113);
    assert PointInRect(105, 90, frames[1].content);
  }

  function NarrowOverWide(): (frames: seq<Frame>)
    ensures |frames| == 2
  {
    [FrameOf(Rect(0, 0, 50, 1), Rect(-100, -100, 242, 412), Document),
     FrameOf(Rect(0, 0, 200, 200), Rect(-50, -50, 292, 462), Document)]
  }

  // ---- Damage over a run ------------------------------------------------------------------------

  /** Over any run of invalidations, a visible pixel is pending exactly when it was pending at the start or has been
      out of sight at some moment since. */
  lemma {:induction false} DamageOverRun(visible: seq<seq<int>>, update: seq<seq<int>>, n: nat, x: int, y: int)
    requires |visible| == |update| && 0 < n < |visible|
    requires forall k :: 0 < k < |visible| ==> DamageKept(visible[k - 1], update[k - 1], visible[k], update[k])
    ensures Contains(update[n], x, y) <==>
            && Contains(visible[n], x, y)
            && (Contains(update[0], x, y) || exists k :: 0 <= k < n && !Contains(visible[k], x, y))
  {
    hide Contains;
    assert DamageKept(visible[n - 1], update[n - 1], visible[n], update[n]);
    if n > 1 {
      DamageOverRun(visible, update, n - 1, x, y);
      if k :| 0 <= k < n && !Contains(visible[k], x, y) {
        assert k == n - 1 || k < n - 1;
      }
    }
  }

  // ---- A window record --------------------------------------------------------------------------

  /** The frame a window occupies: its port rect in screen coordinates, one pixel of border, and a title bar. */
  function FrameOf(portRect: Rect, bounds: Rect, kind: WindowType): Frame {
    var content := OffsetRect(portRect, -bounds.left, -bounds.top);
    var border := InsetRect(content, -FRAME_WIDTH, -FRAME_WIDTH);
    Frame(HasTitleBar(kind), content,
          if HasTitleBar(kind) then border.(top := ToInt16(border.top - FRAME_TITLE_HEIGHT)) else border)
  }

  /** The window's frame stays within 16-bit coordinates. */
  predicate Placed(portRect: Rect, bounds: Rect) {
    && Ordered(portRect)
    && INT16_MIN + 18 <= portRect.top - bounds.top && portRect.bottom - bounds.top <= INT16_MAX - 1
    && INT16_MIN + 1 <= portRect.left - bounds.left && portRect.right - bounds.left <= INT16_MAX - 18
  }

  lemma PlacedIsOrdered(portRect: Rect, bounds: Rect)
    requires Placed(portRect, bounds)
    ensures Ordered(portRect)
  {
  }

  lemma PlacedIsWellFramed(portRect: Rect, bounds: Rect, kind: WindowType)
    requires Placed(portRect, bounds)
    ensures WellFramed(FrameOf(portRect, bounds, kind))
    ensures FrameOf(portRect, bounds, kind).titled <==> kind != Dialog && kind != PlainDialog && kind != AltDialog
    ensures FrameOf(portRect, bounds, kind).content
            == Rect(portRect.top - bounds.top, portRect.left - bounds.left, portRect.bottom - bounds.top,
                    portRect.right - bounds.left)
    ensures FrameOf(portRect, bounds, kind).structure
            == Rect(portRect.top - bounds.top - (if FrameOf(portRect, bounds, kind).titled then 18 else 1),
                    portRect.left - bounds.left - 1, portRect.bottom - bounds.top + 1, portRect.right - bounds.left + 1)
  {
    var content := OffsetRect(portRect, -bounds.left, -bounds.top);
    assert content == Rect(portRect.top - bounds.top, portRect.left - bounds.left, portRect.bottom - bounds.top,
                           portRect.right - bounds.left);
    var border := InsetRect(content, -FRAME_WIDTH, -FRAME_WIDTH);
    assert border == Rect(content.top - 1, content.left - 1, content.bottom + 1, content.right + 1);
  }

  lemma FrameParts(portRect: Rect, bounds: Rect, kind: WindowType)
    requires Placed(portRect, bounds)
    ensures var frame, content := FrameOf(portRect, bounds, kind), OffsetRect(portRect, -bounds.left, -bounds.top);
            var border := InsetRect(content, -FRAME_WIDTH, -FRAME_WIDTH);
            && frame.content == content
            && frame.structure == (if HasTitleBar(kind) then border.(top := ToInt16(border.top - FRAME_TITLE_HEIGHT))
                                   else border)
            && Sides16(frame.content) && Ordered(frame.content) && Sides16(frame.structure) && Ordered(frame.structure)
  {
    PlacedIsWellFramed(portRect, bounds, kind);
    hide InsetRect, OffsetRect, ToInt16;
  }

  class Window {
    const kind: WindowType
    var portRect: Rect
    var bounds: Rect
    var hilited: bool
    var contentRegion: Region
    var structureRegion: Region
    var visibleRegion: Region
    var updateRegion: Region

    function Frame(): Frame
      reads this`portRect, this`bounds
    {
      FrameOf(portRect, bounds, kind)
    }

    ghost predicate Valid()
      reads this`portRect, this`bounds, this`visibleRegion, this`updateRegion
    {
      Placed(portRect, bounds) && Readable(visibleRegion.data) && Readable(updateRegion.data)
    }

    /** The stored content and structure regions are the frame's rectangles. */
    ghost predicate Framed()
      reads this`portRect, this`bounds, this`contentRegion, this`structureRegion
    {
      && contentRegion.rect == Frame().content && structureRegion.rect == Frame().structure
      && Readable(contentRegion.data) && Readable(structureRegion.data)
      && (forall x, y :: Contains(contentRegion.data, x, y) <==> PointInRect(x, y, Frame().content))
      && (forall x, y :: Contains(structureRegion.data, x, y) <==> PointInRect(x, y, Frame().structure))
    }

    /** A window over `area` of the screen. Its visible and update regions start out as the port rect, in the
        window's own coordinates. */
    constructor (area: Rect, screenBounds: Rect, kind: WindowType)
      ensures Valid() == Placed(portRect, bounds)
      ensures this.kind == kind && !hilited && portRect == NormalizeRect(area)
      ensures bounds == OffsetRect(screenBounds, -area.left, -area.top)
      ensures visibleRegion.rect == updateRegion.rect == portRect
      ensures Ordered(portRect) ==> forall x, y :: Contains(visibleRegion.data, x, y) <==> PointInRect(x, y, portRect)
      ensures Ordered(portRect) ==> forall x, y :: Contains(updateRegion.data, x, y) <==> PointInRect(x, y, portRect)
    {
      this.kind := kind;
      var port := NormalizeRect(area);
      portRect := port;
      bounds := OffsetRect(screenBounds, -area.left, -area.top);
      hilited := false;
      contentRegion := EMPTY_REGION;
      structureRegion := EMPTY_REGION;
      var visible := RegionOps.NewRectRegion(port);
      visibleRegion := visible;
      var update := RegionOps.NewRectRegion(port);
      updateRegion := update;
    }

    method UpdateContentAndStructureRegions()
      requires Placed(portRect, bounds)
      modifies this`contentRegion, this`structureRegion
      ensures Framed()
    {
      hide *;
      FrameParts(portRect, bounds, kind);
      var contentRect := OffsetRect(portRect, -bounds.left, -bounds.top);
      var structureRect := InsetRect(contentRect, -FRAME_WIDTH, -FRAME_WIDTH);
      if HasTitleBar(kind) {
        structureRect := structureRect.(top := ToInt16(structureRect.top - FRAME_TITLE_HEIGHT));
      }
      contentRegion := RegionOps.NewRectRegion(contentRect);
      structureRegion := RegionOps.NewRectRegion(structureRect);
      NowFramed(contentRect, structureRect);
    }

    lemma NowFramed(content: Rect, structure: Rect)
      requires content == FrameOf(portRect, bounds, kind).content
      requires structure == FrameOf(portRect, bounds, kind).structure
      requires contentRegion.rect == content && structureRegion.rect == structure
      requires Readable(contentRegion.data) && Readable(structureRegion.data)
      requires forall x, y :: Contains(contentRegion.data, x, y) <==> PointInRect(x, y, content)
      requires forall x, y :: Contains(structureRegion.data, x, y) <==> PointInRect(x, y, structure)
      ensures Framed()
    {
      hide FrameOf, Readable, Contains, PointInRect;
    }

    /** One window's share of an invalidation. `overlay` is what the windows in front and the menu bar cover. */
    method Invalidate(overlay: Region) returns (clipped: Region, overlay': Region)
      requires Valid() && Readable(overlay.data)
      modifies this`contentRegion, this`structureRegion, this`visibleRegion, this`updateRegion
      ensures Valid() && Framed() && Readable(clipped.data) && Readable(overlay'.data)
      ensures forall x, y :: Contains(visibleRegion.data, x, y) <==>
                             PointInRect(x, y, Frame().content) && !Contains(overlay.data, x, y)
      ensures forall x, y :: Contains(clipped.data, x, y) <==>
                             PointInRect(x, y, Frame().structure) && !Contains(overlay.data, x, y)
      ensures forall x, y :: Contains(overlay'.data, x, y) <==>
                             Contains(overlay.data, x, y) || PointInRect(x, y, Frame().structure)
      ensures DamageKept(old(visibleRegion.data), old(updateRegion.data), visibleRegion.data, updateRegion.data)
    {
      hide Readable, Contains, Canonical, Encloses, Ordered, Placed, FrameOf, PointInRect, EndY, Attains, Decode,
           RegionOps.Bounded;
      UpdateContentAndStructureRegions();
      var currentVisible := visibleRegion;
      var updatedVisible := RegionOps.Subtract(contentRegion, overlay);
      var dirty := RegionOps.Subtract(updatedVisible, currentVisible);
      var update := RegionOps.Union(updateRegion, dirty);
      update := RegionOps.Intersect(update, updatedVisible);
      clipped := RegionOps.Subtract(structureRegion, overlay);
      overlay' := RegionOps.Union(overlay, structureRegion);
      visibleRegion := updatedVisible;
      updateRegion := update;
    }
  }

  ghost function Frames(list: seq<Window>): (frames: seq<Frame>)
    reads list
    ensures |frames| == |list|
    ensures forall i :: 0 <= i < |list| ==> frames[i] == list[i].Frame()
  {
    seq(|list|, i requires 0 <= i < |list| reads list => list[i].Frame())
  }

  /** The frames as the stored regions have them. */
  ghost function StoredFrames(list: seq<Window>): (frames: seq<Frame>)
    reads list
    ensures |frames| == |list|
    ensures forall i :: 0 <= i < |list| ==>
              frames[i] == Frame(HasTitleBar(list[i].kind), list[i].contentRegion.rect, list[i].structureRegion.rect)
  {
    seq(|list|, i requires 0 <= i < |list| reads list =>
      Frame(HasTitleBar(list[i].kind), list[i].contentRegion.rect, list[i].structureRegion.rect))
  }

  /** The point is in the window's close box: eleven pixels square, three in from the corner of its title bar. */
  ghost predicate OnCloseBox(w: Window, pt: Point)
    reads w
  {
    && w.kind !in {Dialog, PlainDialog, AltDialog}
    && w.structureRegion.rect.left + 3 <= pt.x < w.structureRegion.rect.left + 14
    && w.structureRegion.rect.top + 3 <= pt.y < w.structureRegion.rect.top + 14
  }

  /** The point is in the window's title bar, the top seventeen rows of its structure. */
  ghost predicate OnTitleBar(w: Window, pt: Point)
    reads w
  {
    && w.kind !in {Dialog, PlainDialog, AltDialog}
    && w.structureRegion.rect.left <= pt.x < w.structureRegion.rect.right
    && w.structureRegion.rect.top <= pt.y < w.structureRegion.rect.top + 17
  }

  ghost predicate OnContent(w: Window, pt: Point)
    reads w
  {
    && w.contentRegion.rect.left <= pt.x < w.contentRegion.rect.right
    && w.contentRegion.rect.top <= pt.y < w.contentRegion.rect.bottom
  }

  ghost predicate Misses(w: Window, pt: Point)
    reads w
  {
    !OnCloseBox(w, pt) && !OnTitleBar(w, pt) && !OnContent(w, pt)
  }

  /** The title bars fit 16-bit coordinates. */
  ghost predicate TitlesFit(list: seq<Window>)
    reads list
  {
    forall w :: w in list ==> TitleFits(w.structureRegion.rect)
  }

  /** What a hit is, in terms of the stored rects. */
  lemma HitIs(list: seq<Window>, pt: Point, part: RegionType, k: nat)
    requires TitlesFit(list) && HitTest(StoredFrames(list), pt, part, k)
    ensures k <= |list| && forall j :: 0 <= j < k ==> Misses(list[j], pt)
    ensures k == |list| <==> part == None
    ensures part == Close <==> k < |list| && OnCloseBox(list[k], pt)
    ensures part == Drag <==> k < |list| && OnTitleBar(list[k], pt) && !OnCloseBox(list[k], pt)
    ensures part == Content <==>
            k < |list| && OnContent(list[k], pt) && !OnTitleBar(list[k], pt) && !OnCloseBox(list[k], pt)
  {
    hide PartAt;
    forall j | 0 <= j < |list| && j <= k ensures
        && (PartAt(StoredFrames(list)[j], pt) == Close <==> OnCloseBox(list[j], pt))
        && (PartAt(StoredFrames(list)[j], pt) == Drag <==> OnTitleBar(list[j], pt) && !OnCloseBox(list[j], pt))
        && (PartAt(StoredFrames(list)[j], pt) == Content <==>
            OnContent(list[j], pt) && !OnTitleBar(list[j], pt) && !OnCloseBox(list[j], pt))
    {
      assert list[j] in list;
      PartIs(StoredFrames(list)[j], pt);
    }
  }

  ghost predicate Distinct(list: seq<Window>) {
    forall i, j :: 0 <= i < j < |list| ==> list[i] != list[j]
  }

  /** The list with its element `k` brought to the front and the others left in order. */
  function Raised(list: seq<Window>, k: nat): seq<Window>
    requires k < |list|
  {
    [list[k]] + list[..k] + list[k + 1..]
  }

  /** The raised window comes first, those that were ahead of it move back by one, and the others stay. */
  lemma RaisedIs(list: seq<Window>, k: nat)
    requires k < |list|
    ensures var raised := Raised(list, k);
            && |raised| == |list| && raised[0] == list[k]
            && (forall i :: 0 <= i < k ==> raised[i + 1] == list[i])
            && forall i :: k < i < |list| ==> raised[i] == list[i]
  {
  }

  lemma MenuBarIsRect(screenWidth: nat)
    requires screenWidth <= INT16_MAX
    ensures Ordered(NewRect(0, 0, screenWidth, MENU_BAR_HEIGHT))
    ensures forall x, y ::
              PointInRect(x, y, NewRect(0, 0, screenWidth, MENU_BAR_HEIGHT)) <==> InMenuBar(screenWidth, x, y)
  {
  }

  lemma NothingHidden(screenWidth: int, frames: seq<Frame>)
    ensures forall x, y :: Hidden(screenWidth, frames, 0, x, y) <==> InMenuBar(screenWidth, x, y)
  {
  }

  /** One step of the walk from front to back. */
  lemma OneWindow(screenWidth: int, frames: seq<Frame>, i: nat, overlay: seq<int>, visible: seq<int>, shown: seq<int>,
                  covered: seq<int>)
    requires i < |frames|
    requires forall x, y :: Contains(overlay, x, y) <==> Hidden(screenWidth, frames, i, x, y)
    requires forall x, y ::
               Contains(visible, x, y) <==> PointInRect(x, y, frames[i].content) && !Contains(overlay, x, y)
    requires forall x, y ::
               Contains(shown, x, y) <==> PointInRect(x, y, frames[i].structure) && !Contains(overlay, x, y)
    requires forall x, y ::
               Contains(covered, x, y) <==> Contains(overlay, x, y) || PointInRect(x, y, frames[i].structure)
    ensures ExactlyVisible(screenWidth, frames, i, visible) && ExactlyShown(screenWidth, frames, i, shown)
    ensures forall x, y :: Contains(covered, x, y) <==> Hidden(screenWidth, frames, i + 1, x, y)
  {
    hide Contains, PointInRect, InMenuBar;
    forall x, y ensures Hidden(screenWidth, frames, i + 1, x, y)
                        <==> Hidden(screenWidth, frames, i, x, y) || PointInRect(x, y, frames[i].structure) {
      if PointInRect(x, y, frames[i].structure) {
        assert 0 <= i < i + 1;
      }
    }
  }

  class WindowManager {
    const screenWidth: nat
    var windowList: seq<Window>

    constructor (screenWidth: nat)
      requires screenWidth <= INT16_MAX
      ensures this.screenWidth == screenWidth && windowList == [] && Valid()
    {
      this.screenWidth := screenWidth;
      windowList := [];
    }

    /** The records are distinct and in range. */
    ghost predicate Valid()
      reads this, windowList
    {
      && screenWidth <= INT16_MAX && Distinct(windowList)
      && forall i :: 0 <= i < |windowList| ==> windowList[i].Valid()
    }

    /** No window behind the front one is highlighted. */
    ghost predicate FrontIsActive()
      reads this, windowList
    {
      forall i :: 0 < i < |windowList| ==> !windowList[i].hilited
    }

    /** Every window's regions are those of its place in the list. */
    ghost predicate Composited()
      reads this, windowList
    {
      forall i :: 0 <= i < |windowList| ==>
        && windowList[i].Framed()
        && ExactlyVisible(screenWidth, Frames(windowList), i, windowList[i].visibleRegion.data)
    }

    /** Walk the windows front to back. `shown[i]` is the clip given to the drawing of frame `i`. */
    method InvalidateWindows() returns (shown: seq<Region>, overlay: Region)
      requires Valid()
      modifies windowList
      ensures Valid() && Composited() && Frames(windowList) == old(Frames(windowList))
      ensures forall w :: w in windowList ==>
                w.hilited == old(w.hilited) && w.portRect == old(w.portRect) && w.bounds == old(w.bounds)
      ensures forall w :: w in windowList ==>
                DamageKept(old(w.visibleRegion.data), old(w.updateRegion.data), w.visibleRegion.data,
                           w.updateRegion.data)
      ensures |shown| == |windowList|
      ensures forall i :: 0 <= i < |shown| ==> ExactlyShown(screenWidth, Frames(windowList), i, shown[i].data)
      ensures forall x, y :: Contains(overlay.data, x, y) <==>
                             Hidden(screenWidth, Frames(windowList), |windowList|, x, y)
    {
      hide Readable, Contains, Placed, FrameOf, PointInRect, InMenuBar, DamageKept, Frames, StoredFrames,
           Hidden, ExactlyVisible, ExactlyShown, Window.Framed, Window.Valid;
      NothingHidden(screenWidth, Frames(windowList));
      ghost var frames := Frames(windowList);
      MenuBarIsRect(screenWidth);
      overlay := RegionOps.NewRectRegion(NewRect(0, 0, screenWidth, MENU_BAR_HEIGHT));
      shown := [];
      for i := 0 to |windowList|
        invariant |shown| == i && Readable(overlay.data)
        invariant forall x, y :: Contains(overlay.data, x, y) <==> Hidden(screenWidth, frames, i, x, y)
        invariant forall w :: w in windowList ==>
                    && w.Valid() && w.hilited == old(w.hilited) && w.portRect == old(w.portRect)
                        && w.bounds == old(w.bounds)
        invariant forall j :: i <= j < |windowList| ==>
                    && windowList[j].visibleRegion == old(windowList[j].visibleRegion)
                    && windowList[j].updateRegion == old(windowList[j].updateRegion)
        invariant forall j :: 0 <= j < i ==>
                    && windowList[j].Framed()
                    && ExactlyVisible(screenWidth, frames, j, windowList[j].visibleRegion.data)
                    && ExactlyShown(screenWidth, frames, j, shown[j].data)
                    && DamageKept(old(windowList[j].visibleRegion.data), old(windowList[j].updateRegion.data),
                                  windowList[j].visibleRegion.data, windowList[j].updateRegion.data)
      {
        var w := windowList[i];
        var clipped, covered := w.Invalidate(overlay);
        assert w.Frame() == frames[i];
        OneWindow(screenWidth, frames, i, overlay.data, w.visibleRegion.data, clipped.data, covered.data);
        overlay := covered;
        shown := shown + [clipped];
      }
      assert Frames(windowList) == frames;
    }

    /** The frontmost window under the mouse, and which of its parts. A click in a close box leaves the target alone. */
    method GetWindowAt(mouse: Point, target: Window?) returns (part: RegionType, target': Window?)
      ensures exists k: nat :: HitTest(StoredFrames(windowList), mouse, part, k)
                               && target' == if part == Drag || part == Content then windowList[k] else target
      ensures TitlesFit(windowList) ==>
                if forall w :: w in windowList ==> Misses(w, mouse) then part == None && target' == target else
                exists k: nat ::
                  && k < |windowList| && !Misses(windowList[k], mouse)
                  && (forall j :: 0 <= j < k ==> Misses(windowList[j], mouse))
                  && part == (if OnCloseBox(windowList[k], mouse) then Close
                              else if OnTitleBar(windowList[k], mouse) then Drag else Content)
                  && target' == if part == Close then target else windowList[k]
    {
      hide GoAwayRect, TitleRect, PointInRect, ToInt16, TitlesFit, Misses, OnCloseBox, OnTitleBar, OnContent;
      ghost var frames := StoredFrames(windowList);
      for i := 0 to |windowList|
        invariant forall j :: 0 <= j < i ==> PartAt(frames[j], mouse) == None
      {
        var w := windowList[i];
        var stored := Frame(HasTitleBar(w.kind), w.contentRegion.rect, w.structureRegion.rect);
        assert frames[i] == stored;
        if HasTitleBar(w.kind) {
          var title := TitleRect(stored);
          if PointInRect(mouse.x, mouse.y, GoAwayRect(title)) {
            HitMeans(mouse, Close, i, target, target);
            return Close, target;
          }
          if PointInRect(mouse.x, mouse.y, title) {
            HitMeans(mouse, Drag, i, target, w);
            return Drag, w;
          }
        }
        if PointInRect(mouse.x, mouse.y, w.contentRegion.rect) {
          HitMeans(mouse, Content, i, target, w);
          return Content, w;
        }
      }
      HitMeans(mouse, None, |windowList|, target, target);
      return None, target;
    }

    lemma HitMeans(mouse: Point, part: RegionType, k: nat, target: Window?, target': Window?)
      requires HitTest(StoredFrames(windowList), mouse, part, k)
      requires target' == if part == Drag || part == Content then windowList[k] else target
      ensures TitlesFit(windowList) ==>
                if forall w :: w in windowList ==> Misses(w, mouse) then part == None && target' == target else
                exists k: nat ::
                  && k < |windowList| && !Misses(windowList[k], mouse)
                  && (forall j :: 0 <= j < k ==> Misses(windowList[j], mouse))
                  && part == (if OnCloseBox(windowList[k], mouse) then Close
                              else if OnTitleBar(windowList[k], mouse) then Drag else Content)
                  && target' == if part == Close then target else windowList[k]
    {
      hide PartAt, OnCloseBox, OnTitleBar, OnContent, TitlesFit;
      if TitlesFit(windowList) {
        HitIs(windowList, mouse, part, k);
        if k < |windowList| {
          assert windowList[k] in windowList && !Misses(windowList[k], mouse);
        }
      }
    }

    /** Hit testing agrees with compositing: a click on a pixel visible in a window reaches that window's content,
        exactly when no close box of a window ahead sticks out over the pixel. */
    lemma VisibleGetsClick(i: nat, mouse: Point, part: RegionType, k: nat)
      requires Valid() && Composited() && i < |windowList|
      requires Contains(windowList[i].visibleRegion.data, mouse.x, mouse.y)
      requires HitTest(StoredFrames(windowList), mouse, part, k)
      ensures if UnderCloseBox(Frames(windowList), i, mouse) then part == Close && k < i else part == Content && k == i
    {
      hide Readable, Contains, Placed, FrameOf, PointInRect, PartAt, WellFramed, Hidden, UnderCloseBox;
      var frames := Frames(windowList);
      StoredAreFrames();
      FramesWell();
      VisibleIsHit(screenWidth, frames, i, windowList[i].visibleRegion.data, mouse);
      if UnderCloseBox(frames, i, mouse) {
        var k' :| 0 <= k' < i && HitTest(frames, mouse, Close, k');
        HitTestUnique(frames, mouse, part, k, Close, k');
      } else {
        HitTestUnique(frames, mouse, part, k, Content, i);
      }
    }

    /** No close box is in the way if the titled windows ahead are at least twelve pixels wide. */
    lemma WideWindowsGetClicks(i: nat, mouse: Point, part: RegionType, k: nat)
      requires Valid() && Composited() && i < |windowList|
      requires forall j :: 0 <= j < i && HasTitleBar(windowList[j].kind) ==>
                 windowList[j].Frame().content.right - windowList[j].Frame().content.left >= 12
      requires Contains(windowList[i].visibleRegion.data, mouse.x, mouse.y)
      requires HitTest(StoredFrames(windowList), mouse, part, k)
      ensures part == Content && k == i
    {
      hide Readable, Contains, Placed, FrameOf, PointInRect, PartAt, WellFramed, Hidden, UnderCloseBox;
      FramesWell();
      forall j | 0 <= j < i && Frames(windowList)[j].titled
        ensures Frames(windowList)[j].content.right - Frames(windowList)[j].content.left >= 12
      {
        FrameTitled(windowList[j]);
      }
      WideBoxHidesNothing(screenWidth, Frames(windowList), i, windowList[i].visibleRegion.data, mouse);
      VisibleGetsClick(i, mouse, part, k);
    }

    lemma StoredAreFrames()
      requires Valid() && Composited()
      ensures StoredFrames(windowList) == Frames(windowList)
    {
      hide Readable, Contains, Placed, FrameOf, PointInRect, ExactlyVisible;
      forall j | 0 <= j < |windowList| ensures StoredFrames(windowList)[j] == Frames(windowList)[j] {
        assert windowList[j].Framed();
        FrameTitled(windowList[j]);
      }
    }

    lemma FramesWell()
      requires Valid()
      ensures forall j :: 0 <= j < |windowList| ==> WellFramed(Frames(windowList)[j])
    {
      hide Readable, Placed, FrameOf, WellFramed;
      forall j | 0 <= j < |windowList| ensures WellFramed(Frames(windowList)[j]) {
        PlacedIsWellFramed(windowList[j].portRect, windowList[j].bounds, windowList[j].kind);
      }
    }

    method MoveToFront(window: Window)
      requires window in windowList && Distinct(windowList)
      modifies this`windowList
      ensures exists k: nat ::
                k < |old(windowList)| && old(windowList)[k] == window && windowList == Raised(old(windowList), k)
      ensures windowList[0] == window && Distinct(windowList) && |windowList| == |old(windowList)|
      ensures old(windowList)[0] == window ==> windowList == old(windowList)
      ensures old(Valid()) ==> Valid()
      ensures forall w :: w in windowList <==> w in old(windowList)
    {
      ghost var before := windowList;
      if windowList[0] == window {
        assert Raised(windowList, 0) == windowList;
        return;
      }
      var k := 0;
      while windowList[k] != window
        invariant 0 <= k < |windowList|
        invariant forall j :: 0 <= j < k ==> windowList[j] != window
        decreases |windowList| - k
      {
        k := k + 1;
      }
      windowList := [windowList[k]] + windowList[..k] + windowList[k + 1..];
      assert windowList == Raised(before, k);
      RaisedKeeps(before, k);
      assert forall i :: 0 <= i < |windowList| ==> windowList[i] in before;
    }

    /** Puts a window in front of all others. Which windows are highlighted does not change. */
    method AddWindowToListAndActivate(window: Window)
      requires Valid() && window !in windowList && window.Valid()
      modifies this`windowList
      ensures Valid() && windowList == [window] + old(windowList)
    {
      hide Readable, Placed, Raised, Window.Valid;
      windowList := [window] + windowList;
      assert windowList[0] == window;
      MoveToFront(window);
    }

    /** Bring a window to the front and make it the one that is highlighted. A window that is highlighted already is
        left where it is, so it ends in front exactly when it was there before or was not highlighted. */
    method SelectWindow(target: Window)
      requires Valid() && target in windowList
      modifies this`windowList, windowList
      ensures Valid() && target.hilited && |windowList| == |old(windowList)| > 0
      ensures windowList[0] == target <==> !old(target.hilited) || old(windowList)[0] == target
      ensures old(target.hilited) ==> windowList == old(windowList) && unchanged(old(windowList))
      ensures !old(target.hilited) ==>
                && Composited()
                && (exists k: nat ::
                      k < |windowList| && old(windowList)[k] == target && windowList == Raised(old(windowList), k))
                && (forall w :: w in windowList ==> (w.hilited <==> w == target))
                && forall w :: w in old(windowList) ==>
                     DamageKept(old(w.visibleRegion.data), old(w.updateRegion.data), w.visibleRegion.data,
                                w.updateRegion.data)
      ensures old(FrontIsActive()) ==> FrontIsActive()
      ensures forall w :: w in windowList <==> w in old(windowList)
      ensures forall w :: w in old(windowList) ==> w.portRect == old(w.portRect) && w.bounds == old(w.bounds)
    {
      hide Readable, Contains, Placed, PointInRect, DamageKept, Frames, StoredFrames, Composited, Window.Framed,
          Window.Valid, Raised;
      if target.hilited {
        return;
      }
      HiliteOnly(target);
      MoveToFront(target);
      forall i | 0 <= i < |windowList| ensures windowList[i] in old(windowList) {}
      var _, _ := InvalidateWindows();
    }

    method HiliteOnly(target: Window)
      requires Valid()
      modifies windowList
      ensures Valid() && forall w :: w in windowList ==>
                (w.hilited <==> w == target) && unchanged(w`portRect, w`bounds, w`visibleRegion, w`updateRegion)
    {
      hide Readable, Placed;
      for i := 0 to |windowList|
        invariant Distinct(windowList)
        invariant forall j :: 0 <= j < i ==> (windowList[j].hilited <==> windowList[j] == target)
        invariant forall w :: w in windowList ==>
                    w.Valid() && unchanged(w`portRect, w`bounds, w`visibleRegion, w`updateRegion)
      {
        windowList[i].hilited := target == windowList[i];
      }
    }

    /** A new window joins the back of the list, and is brought to the front if it is to be in front of another or is
        the only one. Everything visible of it is waiting to be drawn. */
    method NewWindow(area: Rect, screenBounds: Rect, kind: WindowType, inFront: bool) returns (w: Window)
      requires Valid()
      requires Placed(NormalizeRect(area), OffsetRect(screenBounds, -area.left, -area.top))
      modifies this`windowList, windowList
      ensures Valid() && Composited() && fresh(w)
      ensures w.kind == kind && w.portRect == NormalizeRect(area)
      ensures w.bounds == OffsetRect(screenBounds, -area.left, -area.top)
      ensures windowList == if inFront || old(windowList) == [] then [w] + old(windowList) else old(windowList) + [w]
      ensures w.hilited == (inFront || old(windowList) == [])
      ensures old(FrontIsActive()) ==> FrontIsActive()
      ensures forall x, y :: Contains(w.updateRegion.data, x, y) <==> Contains(w.visibleRegion.data, x, y)
      ensures forall v :: v in old(windowList) ==>
                DamageKept(old(v.visibleRegion.data), old(v.updateRegion.data), v.visibleRegion.data,
                           v.updateRegion.data)
    {
      hide Readable, Contains, Placed, PointInRect, DamageKept, Frames, StoredFrames, Composited, Window.Framed;
      PlacedIsOrdered(NormalizeRect(area), OffsetRect(screenBounds, -area.left, -area.top));
      w := new Window(area, screenBounds, kind);
      ghost var before := windowList;
      ghost var visible, update := w.visibleRegion.data, w.updateRegion.data;
      windowList := windowList + [w];
      if inFront || |windowList| == 1 {
        SelectWindow(w);
        RaisedLast(before, w, windowList);
      } else {
        var _, _ := InvalidateWindows();
      }
      assert w in windowList;
      AllPending(visible, update, w.visibleRegion.data, w.updateRegion.data);
    }
  }

  /** A dialog put in front of a highlighted window leaves it highlighted, and selecting it does not bring it back. */
  method HighlightedStaysBehind(area: Rect, screenBounds: Rect)
      returns (manager: WindowManager, window: Window, dialog: Window)
    requires Placed(NormalizeRect(area), OffsetRect(screenBounds, -area.left, -area.top))
    ensures manager.windowList == [dialog, window] && window != dialog && window.hilited
  {
    hide Readable, Contains, Placed, PointInRect, DamageKept, Frames, StoredFrames, WindowManager.Composited,
        Window.Framed;
    manager := new WindowManager(512);
    window := manager.NewWindow(area, screenBounds, Document, true);
    dialog := new Window(area, screenBounds, Dialog);
    manager.AddWindowToListAndActivate(dialog);
    assert manager.windowList == [dialog, window];
    assert !manager.FrontIsActive() by {
      assert manager.windowList[1].hilited;
    }
    manager.SelectWindow(window);
  }

  /** A window whose pending and visible pixels agreed has all it shows pending afterwards. */
  lemma AllPending(visible: seq<int>, update: seq<int>, visible': seq<int>, update': seq<int>)
    requires forall x, y :: Contains(visible, x, y) <==> Contains(update, x, y)
    requires DamageKept(visible, update, visible', update')
    ensures forall x, y :: Contains(update', x, y) <==> Contains(visible', x, y)
  {
    hide Contains;
  }

  lemma RaisedLast(list: seq<Window>, w: Window, raised: seq<Window>)
    requires w !in list
    requires exists k: nat :: k < |list| + 1 && (list + [w])[k] == w && raised == Raised(list + [w], k)
    ensures raised == [w] + list
  {
    assert (list + [w])[..|list|] == list && (list + [w])[|list| + 1..] == [];
  }

  lemma FrameTitled(w: Window)
    ensures w.Frame().titled == HasTitleBar(w.kind)
  {
  }

  /** Raising a window keeps every window in the list once. */
  lemma RaisedKeeps(list: seq<Window>, k: nat)
    requires k < |list| && Distinct(list)
    ensures Distinct(Raised(list, k)) && |Raised(list, k)| == |list|
    ensures forall w :: w in Raised(list, k) <==> w in list
  {
    var raised := Raised(list, k);
    assert list == list[..k] + [list[k]] + list[k + 1..];
    forall i, j | 0 <= i < j < |raised| ensures raised[i] != raised[j] {
      var i', j' := if i == 0 then k else if i <= k then i - 1 else i, if j <= k then j - 1 else j;
      assert raised[i] == list[i'] && raised[j] == list[j'];
    }
  }
}
