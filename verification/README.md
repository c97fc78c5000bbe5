# Cyder in Dafny

Cyder runs classic Macintosh programs: it emulates the memory, the QuickDraw graphics and the toolbox managers they call.
This project models the parts of it whose behaviour is hardest to see from the code, and proves what they are for.

## What is modelled

The graphics stack, each layer on the one below:

- `Scanlines.dfy`, `Regions.dfy`, `RegionOps.dfy`: sorted ranges of pixels and their union, intersection and difference by
  two readers; regions as a flat stream `y, count, start, end, ...`; the sweep that combines two regions row by row. The
  meaning of a line or a stream is the set of pixels it covers. `Readable` streams are what every operation accepts;
  `Canonical` ones are the normal form, and two canonical streams with the same pixels are the same integers.
- `Bits.dfy`, `BitCopy.dfy`, `Raster.dfy`: bytes as pixels, the unaligned bit copy, images as rows of bytes.
- `Ellipse.dfy`, `Blit.dfy`, `BitmapImage.dfy`: the region cursor, clipped rects, frames and ellipses, the clipped blit,
  and the scoped clip. Each drawing call is proved against one statement about each pixel.
- `MenuPopUp.dfy`, `MenuManager.dfy`: save-under and exclusive-or highlighting; a whole tracking session.
- `WindowManager.dfy`: the window list, invalidation from front to back, hit testing.

Four smaller subjects:

- `Memory.dfy`, `Typegen.dfy`: the struct compiler. The generator's loops emit steps with symbolic offsets; the emitted
  reader and writer are run against memory; reading inverts writing.
- `ResourceFork.dfy`: the resource file writer and loader, on the struct layouts above.
- `FileResolver.dfy`: the depth-first include resolver.
- `DebugManager.dfy`: the log of written and tagged spans. `UnpackBits.dfy`: PackBits decoding.

`Geometry.dfy` holds the rect arithmetic, with the truncation to 16 bits written out (`ToInt16`). Where that arithmetic would
wrap, a contract either says what comes of it or asks for coordinates that fit. `Options.dfy` is the type of a value that may
be missing.

## Where the code does not do what one might expect

- The bounding rect of a region operation takes its bottom from the last row of either operand
  (`emu/graphics/region.cc:252`). It always encloses the result and is tight on the other three sides. At the bottom it is
  tight exactly under the condition of `RegionOps.BottomAttained`: always for a union; for an intersection if both operands
  end in the same row and share a pixel just above; for a difference if the first ends lower, or both end in the same row
  and the first has a pixel just above that the second has not. `RegionOps.BottomNotAttained` is a rect ten rows high cut to
  five whose bounding rect still reaches down ten rows.
- `FillEllipse` computes in 32-bit integers, and on large rects a sum overflows (`emu/graphics/bitmap_image.cc:107`,
  `emu/graphics/bitmap_image.cc:130`). `Ellipses.ScanFits` is the exact condition on the half extents under which nothing
  overflows; `Ellipses.SmallScanFits` gives a simpler bound that suffices, and `Ellipses.LargeCircleOverflows` shows that a
  circle 430 pixels wide overflows at its first test. If sums wrap, and the bound they are compared with fits, a row comes
  out right, the rows before it being right, exactly when its first sum fits (`Ellipses.WrappedRowIsRight`), and the whole
  scan exactly when no sum overflows (`Ellipses.WrappedScanIsRight`).
- The count of ranges in a row is stored in 16 bits. `Regions.StoredIsIntended`: the stored stream is the intended one exactly
  when no row has more than 16383 ranges. Operands whose longest rows have no more than that together are safe
  (`RegionOps.RegionOp`); `Regions.CombDoesNotFit` is a union of two rows of 8192 separate pixels whose count turns negative.
- Moving a region wraps its coordinates to 16 bits. For a canonical region the pixels come out moved exactly when every
  coordinate still fits (`RegionOps.Offset`).
- A menu without items frames two rows of the screen that it has not saved (`emu/menu_popup.cc:90`,
  `emu/graphics/bitmap_image.cc:387`): the row below its title and, because a frame without height has its bottom above its top,
  the row above. `MenuPopUps.MenuPopUp.Close` gives every byte back exactly if those pixels already looked as the popup leaves
  them, and `MenuPopUps.EmptyMenuLeavesMark` is a screen where they did not. `MenuManagers.MenuManager.MenuSelect` says what
  the screen looks like after any run.
- `SelectWindow` leaves a window alone that is already highlighted (`emu/window_manager.cc:299`). A dialog is put in front of
  a window that stays highlighted (`emu/window_manager.cc:231`), so selecting that window does not bring it forward:
  `WindowManagers.HighlightedStaysBehind`.
- The type checker calls a struct fixed unless a string is among its own members
  (`gen/typegen/compiler/type_checker.py:150`). `Typegen.FixedSizeIsSize` gives the exact condition under which the emitted
  `fixed_size` is right, and `Typegen.NestedStringIsMissed` a struct for which it is not.
- The close box of a window lies in its title bar exactly when the content is twelve pixels wide or more
  (`WindowManagers.CloseBoxInTitle`). A click on a visible pixel reaches the window that shows it exactly when no close box of
  a window ahead sticks out over the pixel (`WindowManagers.WindowManager.VisibleGetsClick`);
  `WindowManagers.NarrowWindowTakesClick` is a window one pixel wide that takes a click from the one behind.
- A new window's visible and update regions are its port rect in local coordinates, while invalidation reads them as
  global ones (`emu/window_manager.cc:146`, `emu/window_manager.cc:443`). As both are the same set, everything visible of
  the new window is still pending after the first pass (`WindowManagers.WindowManager.NewWindow`).
- A tag that is empty is logged as if it were a write; `DebugManagers.DebugManager.TagMemory` says exactly when the log stays
  right.
- PackBits gives no meaning to a flag of 0x80; the decoder stores it as data. `PackBits.MeansWhatItExpandsTo` says for which
  packets this makes no difference: exactly those without that flag.
- A packed row whose length byte is the true length modulo 256 is accepted (`PackBits.UnpackBits`).
- The generated string reader checks the length byte but not the bytes behind it; the model calls that outcome `Unchecked`.

## Model

| member | source | states |
|---|---|---|
| Geometry.ToInt16Is | emu/graphics/graphics_helpers.h:25-141 | a coordinate is stored as the one 16-bit integer that is the same modulo 65536 |
| Geometry.RectsAre | emu/graphics/graphics_helpers.h:25-141 | moving, insetting and making a rect, in numbers, where every side fits |
| Scanlines.Union | emu/graphics/region.cc:37-74 | the result covers a pixel exactly when either line does, is sorted, is in normal form if both are, and has no more ranges than both together |
| Scanlines.Intersect | emu/graphics/region.cc:88-114 | the result covers a pixel exactly when both lines do; order and normal form are kept, and it has no more ranges than both together |
| Scanlines.Subtract | emu/graphics/region.cc:116-159 | the result covers a pixel exactly when the first line does and the second does not; order and normal form are kept, and it has no more ranges than both together |
| Scanlines.CutRange | emu/graphics/region.cc:138-155 | cutting one range by the second line leaves just the pixels the second line does not cover, and leaves the reader where the next range needs it |
| Scanlines.SkipEnded | emu/graphics/region.cc:133-136 | no range that is skipped covers a pixel of the range to be cut |
| Scanlines.StrictUnique | emu/graphics/region.cc:37-159 | two lines in normal form that cover the same pixels are the same list |
| Scanlines.CountFits | emu/graphics/region.cc:197-203 | a normal line within a span of pixels has few enough entries for a 16-bit count |
| Regions.DecodeEncode | emu/graphics/region.cc:185-203 | reading a written stream gives back its rows |
| Regions.StreamLayout | emu/graphics/region.cc:165-203 | the integers of each row, one by one: its y, twice its number of ranges, and their starts and ends, row after row |
| Regions.LineInForce | emu/graphics/region.cc:185-257 | a pixel is shown exactly when it lies in a range of the last row at or above it |
| Regions.CanonicalUnique | emu/graphics/region.cc:208-257 | two canonical streams with the same pixels are the same integers |
| Regions.StoredIsIntended | emu/graphics/region.cc:197-203 | with counts cut to 16 bits the stored stream is the intended one if and only if no row has more than 16383 ranges |
| Regions.CombDoesNotFit | emu/graphics/region.cc:197-203 | two rows of 8192 separate pixels whose union is stored with a count of -32768 |
| RegionOps.AdvanceScanline | emu/graphics/region.cc:185-195 | the reader moves over exactly one row and points at its ranges |
| RegionOps.RegionOp | emu/graphics/region.cc:208-257 | the result holds a pixel exactly when the boolean operation on the operands does; it is readable, canonical for canonical operands; its rect encloses it, is attained on top, left and right, ends at the last row of either operand, and is attained there if and only if the operands say so; no row is longer than the operands' longest together, so 16-bit counts change nothing when those come to at most 16383 |
| RegionOps.Sweep | emu/graphics/region.cc:208-253 | the loop over both readers, against a statement of what has been written for the rows read |
| RegionOps.BottomAttained | emu/graphics/region.cc:246-252 | the row just above the rect's bottom holds a pixel if and only if: union, always; intersection, equal last rows sharing a pixel just above; difference, the first ends lower, or equal last rows with a pixel of the first alone |
| RegionOps.BottomNotAttained | emu/graphics/region.cc:252-252 | an intersection whose rect reaches five rows below its last pixel |
| RegionOps.Union | emu/graphics/region.cc:265-267 | union of pixel sets, canonical operands giving a canonical result; an empty result has the zero rect, any other a rect that ends at the last row of either operand, bounds every row and, for canonical operands, is attained on top, left and right |
| RegionOps.Intersect | emu/graphics/region.cc:262-264 | intersection of pixel sets, canonical operands giving a canonical result; an empty result has the zero rect, any other a rect that ends at the last row of either operand, bounds every row and, for canonical operands, is attained on top, left and right |
| RegionOps.Subtract | emu/graphics/region.cc:259-261 | difference of pixel sets, canonical operands giving a canonical result; an empty result has the zero rect, any other a rect that ends at the last row of either operand, bounds every row and, for canonical operands, is attained on top, left and right |
| RegionOps.NewRectRegion | emu/graphics/region.cc:165-175 | the region of a rect is one the operations accept if and only if the rect is not inside out; it then holds exactly the rect's pixels and is canonical when the rect is not empty; its stream is six integers |
| RegionOps.Offset | emu/graphics/region.cc:269-286 | the pixels of a canonical region come out moved if and only if no coordinate leaves 16 bits; then the normal form is kept, and a rect that encloses the region and stays in 16 bits still does; in any case each coordinate is stored modulo 65536 |
| RegionOps.StoredCoordinates | emu/graphics/region.cc:269-286 | each coordinate of a moved stream is the moved coordinate modulo 65536, as a signed 16-bit integer |
| RegionOps.Commutes | emu/graphics/region.cc:208-267 | unions, and intersections, of canonical regions are the same integers in either order |
| RegionOps.Associates | emu/graphics/region.cc:208-267 | unions, and intersections, of three canonical regions are the same integers however they are grouped |
| RegionOps.IntersectIsDoubleSubtract | emu/graphics/region.cc:208-267 | intersecting gives the integers that subtracting the difference gives |
| RegionOps.SplitAndRejoin | emu/graphics/region.cc:208-267 | the parts of a region inside and outside another unite to the very same integers |
| BitCopy.BitArrayCopy | emu/graphics/copybits.h:28-116 | each copied bit arrives and every other destination bit stays, for all offsets and lengths, whatever byte follows the source |
| BitCopy.CopyHeld | emu/graphics/copybits.h:38-115 | the copy looks at nothing but the bytes that hold a copied bit and the one byte that follows, whose value makes no difference |
| BitCopy.FirstCopy | emu/graphics/copybits.h:16-26 | the first byte takes the bits up to its end or the length, keeps the others, and the length left is right |
| Raster.PixelWidthToBytes | emu/graphics/graphics_helpers.h:14-18 | the least number of bytes that holds the pixels |
| Raster.SamePixels | emu/graphics/bitmap_image.cc:53-61 | memories of an image with the same pixels are the same bytes |
| Raster.PixelIs | emu/graphics/bitmap_image.cc:185-279 | which bit of which byte a pixel is: rows of whole bytes from the top, the leftmost pixel in the highest bit |
| Raster.BlendBit | emu/graphics/bitmap_image.cc:201-218 | masking a byte in any mode paints exactly the mask's pixels |
| Ellipses.NeverSkips | emu/graphics/bitmap_image.cc:124-128 | the half width of the next row is at most one more than the two rows before extrapolate to |
| Ellipses.NextOffset | emu/graphics/bitmap_image.cc:123-132 | the scan of a row overflows if and only if its first sum does; otherwise it ends at the greatest offset inside the ellipse, after as many steps as the slope grew by, plus one |
| Ellipses.HalfWidthOfIs | emu/graphics/bitmap_image.cc:128-132 | counting down from the half width finds the greatest column of a row |
| Ellipses.SmallScanFits | emu/graphics/bitmap_image.cc:107-130 | a bound on the half extents under which no sum of the scan overflows |
| Ellipses.LargeCircleOverflows | emu/graphics/bitmap_image.cc:107-130 | the first sum for a rect of 430 by 430 exceeds 32 bits, and wrapped it accepts a column outside the ellipse |
| Ellipses.FarSideInside | emu/graphics/bitmap_image.cc:123-141 | off the centre row a pixel is filled exactly when the column on its far side satisfies the ellipse's inequality |
| Ellipses.ToInt32Is | emu/graphics/bitmap_image.cc:107-130 | a wrapped sum is the one 32-bit integer that is the same modulo 2 to the 32nd |
| Ellipses.WrappedRowIsRight | emu/graphics/bitmap_image.cc:128-132 | if the bound itself fits and the scan starts where it should, with wrapped sums it ends at the greatest column of the row if and only if the first sum fits |
| Ellipses.WrappedScanIsRight | emu/graphics/bitmap_image.cc:107-144 | if the bound itself fits, the scan with wrapped sums finds the greatest column of every row if and only if no sum overflows |
| Bitmaps.RegionCursor.TryAdvanceScanline | emu/graphics/bitmap_image.cc:28-42 | for rows asked for in order, the scanline is always the clip's line in force; for a row already passed it is the line it was |
| Bitmaps.BitmapImage.constructor | emu/graphics/bitmap_image.cc:53-61 | an empty image whose clip is all of it |
| Bitmaps.BitmapImage.SetClipRegion | emu/graphics/bitmap_image.cc:75-79 | the clip is the region cut back to the image, canonical if the region is; its rect is zero if it is empty, ends at the last row of either, and is otherwise attained for a canonical region |
| Bitmaps.FillSpan | emu/graphics/bitmap_image.cc:185-279 | exactly the pixels from start to end of a row are combined with the pattern, by head, whole bytes and tail, in all three modes |
| Bitmaps.BitmapImage.FillRow | emu/graphics/bitmap_image.cc:146-167 | exactly the pixels of a row that lie in the run and in the scanline are painted, if the clip's rect holds the row |
| Bitmaps.BitmapImage.FillRowAt | emu/graphics/bitmap_image.cc:169-183 | the same with the clip's own line for the row |
| Bitmaps.BitmapImage.FillRect | emu/graphics/bitmap_image.cc:81-98 | each pixel in the rect and the clip takes, or is combined with, the pattern's pixel at its row and column modulo eight, counted from the rect's top and from its left or, if that is negative, from column zero; every other pixel stays; a height beyond 16 bits wraps |
| Bitmaps.XOrTwice | emu/graphics/bitmap_image.cc:81-98 | filling twice in an exclusive-or mode restores every byte |
| Bitmaps.BitmapImage.FrameRect | emu/graphics/bitmap_image.cc:362-393 | each pixel of the border and the clip is combined with the pattern once for every side that draws it; a rect without height gets its top row and the row before its bottom, both in the clip's line for the top |
| Bitmaps.FrameDrawn | emu/graphics/bitmap_image.cc:362-393 | a frame pixel by pixel, in each mode: how many of its four runs cross the pixel, and which pixel of the pattern it takes |
| Bitmaps.BitmapImage.FillEllipse | emu/graphics/bitmap_image.cc:100-144 | it is defined if and only if no sum overflows 32 bits; then exactly the inscribed ellipse is filled, and all inner loops together take at most half the width plus half the height steps |
| Bitmaps.DiscFilled | emu/graphics/bitmap_image.cc:100-144 | a filled ellipse pixel by pixel: the inequality in whole numbers that says which are filled, and the pixel of the pattern they take |
| Bitmaps.BitmapImage.CopyBits | emu/graphics/bitmap_image.cc:301-360 | each pixel in the destination rect and the clip becomes the source's bit at the same displacement, columns past the end of a source row running on into the next; every other pixel stays |
| Blits.BlitShows | emu/graphics/bitmap_image.cc:301-360 | in the clip the destination rect shows the source's pixel at the same place of the source rect; every other pixel stays |
| Bitmaps.BitmapImage.CopyBitmap | emu/graphics/bitmap_image.cc:395-400 | the same with another image as the source |
| Bitmaps.TempClipRect.Close | emu/graphics/bitmap_image.h:112-114 | the clip from before the scope is back, as the same integers if it was canonical |
| Bitmaps.NestedScopes | emu/graphics/bitmap_image.h:106-119 | scopes nested to any depth restore the clip exactly |
| Bitmaps.ClipRestored | emu/graphics/bitmap_image.cc:75-79 | cutting a clip back to the image it lies on gives the same integers |
| MenuPopUps.InvertTwice | emu/menu_popup.cc:66-74 | a highlight drawn and taken back restores every byte |
| MenuPopUps.InvertInstead | emu/menu_popup.cc:135-136 | drawing a new highlight before taking back the old one leaves just the new one, even where they overlap |
| MenuPopUps.CopyBack | emu/menu_popup.cc:118-118 | copying the saved pixels back undoes whatever was drawn inside the rect, on the columns that are on the screen |
| MenuPopUps.ClosedRestores | emu/menu_popup.cc:76-119 | a popup that has opened and closed leaves every byte as it was if and only if its mark was there before; one with items leaves none |
| MenuPopUps.EmptyMenuLeavesMark | emu/menu_popup.cc:76-119 | on a screen that is clear below the title, a menu without items leaves a mark |
| MenuPopUps.AutoHiliteRect.constructor | emu/menu_popup.cc:66-70 | exactly the rect's pixels inside the clip are inverted |
| MenuPopUps.AutoHiliteRect.Close | emu/menu_popup.cc:71-74 | exactly the rect's pixels inside the clip are inverted again |
| MenuPopUps.GetPopUpBounds | emu/menu_popup.cc:27-43 | the popup hangs below its title and is as wide as its widest item |
| MenuPopUps.PopUpIs | emu/menu_popup.cc:27-43 | the popup in numbers: twelve rows an item, eight pixels a letter, 28 more for a shortcut, twelve around the widest |
| MenuPopUps.WidestItem | emu/menu_popup.cc:30-40 | the least width that holds every item with its shortcut |
| MenuPopUps.ItemFits | emu/menu_popup.cc:45-52 | the item under a row of the popup contains that row and lies within the popup |
| MenuPopUps.MenuPopUp.constructor | emu/menu_popup.cc:76-113 | the covered pixels are kept, and what the title highlight and the drawing changed lies within the two rects, but for the frame of a menu without items |
| MenuPopUps.DrawBox | emu/menu_popup.cc:89-90 | before its text is drawn the popup is a clear box with a border one pixel wide, inside the clip |
| MenuPopUps.MenuPopUp.GetHoveredMenuItem | emu/menu_popup.cc:121-138 | the result is item i exactly when the point is in the popup on the twelve rows of that item and bit i of the menu is set, and none otherwise; the screen stays the drawn popup with at most one highlight |
| MenuPopUps.MenuPopUp.Close | emu/menu_popup.cc:115-119 | the screen is as it was before the popup but for the mark of a menu without items; every byte is, if and only if that mark was there |
| MenuManagers.MenuManager.InsertMenu | emu/menu_manager.cc:38-46 | menus keep distinct ids, each with its items |
| MenuManagers.MenuManager.TitleUnder | emu/menu_manager.cc:76-99 | the first menu whose title is under the point |
| MenuManagers.TitleIs | emu/menu_manager.cc:76-96 | the titles in numbers: from column six, eight pixels a letter and eight more, 24 for the apple, in the top twenty rows |
| MenuManagers.OpenIs | emu/menu_manager.cc:73-110 | the menu open after some points is that of the last of them on a title |
| MenuManagers.MenuManager.MenuSelect | emu/menu_manager.cc:73-136 | after any path of the mouse each pixel is as the last mark on it, or as before; every byte is as before if and only if those marks were there, as when every menu opened has items; the result is the item under the mouse of the menu that was opened last, by the rows it lies on and the menu's bits, or none |
| WindowManagers.CloseBoxInTitle | emu/window_manager.cc:75-79 | the close box lies in the title bar if and only if the content is at least twelve pixels wide |
| WindowManagers.PlacedIsWellFramed | emu/window_manager.cc:420-434 | the frame is the content with one pixel of border and a title bar of seventeen; the dialogs of three kinds have none |
| WindowManagers.Window.constructor | emu/window_manager.cc:135-177 | a new record has its port at the origin, and its visible and update regions are the port rect, whose pixels they hold unless it is inside out |
| WindowManagers.Window.UpdateContentAndStructureRegions | emu/window_manager.cc:420-434 | the stored regions are exactly the frame's rects |
| WindowManagers.Window.Invalidate | emu/window_manager.cc:440-476 | one window's visible region, clip and overlay, and the damage it keeps |
| WindowManagers.WindowManager.InvalidateWindows | emu/window_manager.cc:436-479 | a pixel is visible in a window exactly when it is in its content and under neither the menu bar nor a window ahead; frames are clipped to what is not hidden; damage is kept |
| WindowManagers.VisibleIs | emu/window_manager.cc:436-476 | what is visible and what is shown of a window, in numbers: under neither the top twenty rows nor the structure of a window ahead |
| WindowManagers.VisibleDisjoint | emu/window_manager.cc:448-451 | no pixel is visible in two windows |
| WindowManagers.ShownPartition | emu/window_manager.cc:462-470 | the menu bar and the clipped structures cover the final overlay, each pixel once |
| WindowManagers.VisibleIsHit | emu/window_manager.cc:361-388 | hit testing finds the content of the window a pixel is visible in if and only if no close box ahead covers the pixel; otherwise it finds such a box |
| WindowManagers.NarrowWindowTakesClick | emu/window_manager.cc:361-388 | a window one pixel wide whose close box takes the click on a pixel visible behind it |
| WindowManagers.DamageOverRun | emu/window_manager.cc:443-473 | over any run of passes a visible pixel is pending exactly when it was at the start or has been out of sight since |
| WindowManagers.WindowManager.GetWindowAt | emu/window_manager.cc:361-388 | the frontmost window the point touches and the part it touches: the close box, eleven pixels square and three in from the corner; else the title bar, the top seventeen rows of the structure; else the content; a close box leaves the target alone |
| WindowManagers.WindowManager.VisibleGetsClick | emu/window_manager.cc:361-388 | after an invalidation, a click on a pixel visible in a window reaches that window's content if and only if no close box of a window ahead covers it; otherwise it closes a window ahead |
| WindowManagers.WindowManager.WideWindowsGetClicks | emu/window_manager.cc:361-388 | the click reaches the content if the titled windows ahead are at least twelve pixels wide |
| WindowManagers.WindowManager.MoveToFront | emu/window_manager.cc:390-403 | the window comes first and the others keep their order |
| WindowManagers.RaisedIs | emu/window_manager.cc:390-403 | the raised window comes first, those ahead of it move back by one, the others stay |
| WindowManagers.WindowManager.SelectWindow | emu/window_manager.cc:293-319 | the window ends in front if and only if it was there or was not highlighted; a highlighted one changes nothing; otherwise it is the only one highlighted, the others keep their order, all is composited and damage kept |
| WindowManagers.WindowManager.AddWindowToListAndActivate | emu/window_manager.cc:231-235 | the window comes first, and what is highlighted stays so |
| WindowManagers.HighlightedStaysBehind | emu/window_manager.cc:293-301 | two windows of which selecting the one behind does not bring it forward |
| WindowManagers.WindowManager.NewWindow | emu/window_manager.cc:181-229 | the window is first or last as asked, all is composited, its whole visible region is pending, and the others' damage is kept; it has the kind, port rect and bounds of the arguments |
| Memory.MemoryRegion.ReadRaw | core/memory_region.cc:46-56 | the bytes, or an error exactly when they reach past the end |
| Memory.MemoryRegion.WriteRaw | core/memory_region.cc:58-68 | the bytes are stored and nothing else changes; an error, and no change, exactly when they reach past the end |
| Memory.BigEndianInverts | core/memory_region.h:65-65 | reading a number inverts writing it |
| Memory.BigEndianByte | core/memory_region.h:81-85 | each byte of a number is the digit to the base 256 at its place, the highest first |
| Typegen.CopyU24 | gen/typegen/typegen_prelude.cc:46-54 | the big-endian value of three bytes, whatever the fourth byte of the word held |
| Typegen.WriteU24 | gen/typegen/typegen_prelude.cc:56-63 | the low three bytes of the value, big-endian, and nothing else |
| Typegen.ReadString | gen/typegen/typegen_prelude.cc:18-24 | the bytes after a length byte |
| Typegen.WriteString | gen/typegen/typegen_prelude.cc:26-34 | the length byte and the bytes |
| Typegen.CheckStruct | gen/typegen/compiler/type_checker.py:140-152 | the sum of the member sizes, and whether some member is itself a string |
| Typegen.WriteReadType | gen/typegen/compiler/codegen/codegen.py:184-233 | each emitted offset has the constant and the terms of just the members before it |
| Typegen.WriteWriteType | gen/typegen/compiler/codegen/codegen.py:235-279 | for every object, each step advances by the bytes its member takes |
| Typegen.WriteOffsets | gen/typegen/compiler/codegen/codegen.py:105-115 | each entry's offset is the sum of the checked sizes before it |
| Typegen.OffsetIsSpan | gen/typegen/compiler/codegen/codegen.py:190-204 | every emitted offset comes to the bytes the members before it take in the object at hand, nested structs included |
| Typegen.SizeIsSpan | gen/typegen/compiler/codegen/codegen.py:230-233 | the emitted size() is the number of bytes the object takes |
| Typegen.ReadStruct | gen/typegen/compiler/codegen/codegen.py:184-228 | running the emitted reader is reading the members one after the other, errors included |
| Typegen.WriteStruct | gen/typegen/compiler/codegen/codegen.py:235-279 | running the emitted writer stores the serialised object, or a first part of it when the memory ends, and changes nothing else |
| Typegen.SerializeIs | core/memory_region.h:70-85 | the bytes of each kind of value: digits of a number, one or zero for a boolean, a length byte before a string |
| Typegen.ParseIs | core/memory_region.h:52-66 | what is read back of each kind of value, and when it fails; of a boolean only the lowest bit counts |
| Typegen.MemberBytes | gen/typegen/compiler/codegen/codegen.py:264-279 | each member's bytes stand right after those of the members before it |
| Typegen.ParseInverts | gen/typegen/compiler/codegen/codegen.py:184-279 | reading inverts writing for every type, at every offset, in any memory |
| Typegen.ReaderInvertsWriter | gen/typegen/compiler/codegen/codegen.py:184-279 | the generated reader gives back what the generated writer stored, size() is the bytes written, and every other byte is unchanged |
| Typegen.FixedSizeIsSize | gen/typegen/compiler/type_checker.py:140-157 | the emitted fixed_size is the size of every object if and only if no member, however deep, is a string |
| Typegen.NestedStringIsMissed | gen/typegen/compiler/type_checker.py:149-152 | a struct taken for fixed whose objects differ in size |
| Typegen.TableMatchesReader | gen/typegen/compiler/codegen/codegen.py:105-115 | a table offset is the reader's if and only if the strings before it are empty |
| Typegen.NestedField | gen/typegen/typegen_prelude.cc:6-8 | adding two fields leads to the member of the member, where the reader finds it |
| ResourceForks.Collect | emu/rsrc/resource_file.cc:103-143 | the lists and the running offsets are those of all the groups and resources in order |
| ResourceForks.Save | emu/rsrc/resource_file.cc:102-198 | the file holds header, data, map, lists and names where the offsets say, and loads as the same groups |
| ResourceForks.HeaderBytes | emu/rsrc/resource_types.tdef:14-36 | every number of the two headers of a laid-out file, by offset and width |
| ResourceForks.TypeItemBytes | emu/rsrc/resource_types.tdef:38-46 | the count of types, and the three numbers of each type item, by offset and width |
| ResourceForks.EntryBytes | emu/rsrc/resource_types.tdef:48-61 | the twelve bytes of each entry: two of id, two of name offset, one of attributes, three of data offset, four zeros |
| ResourceForks.ContentBytes | emu/rsrc/resource_file.cc:160-198 | each resource's data after its length in four bytes, and its name after its length in one, by offset |
| ResourceForks.LoadResource | emu/rsrc/resource.cc:16-33 | data after its length and a name if there is one, with the same errors |
| ResourceForks.LoadGroup | emu/rsrc/resource_group.cc:21-40 | as many entries as the type item says, one after the other |
| ResourceForks.LoadRsrcFork | emu/rsrc/resource_file.cc:69-100 | the groups the file holds, or the first error |
| ResourceForks.RoundTrip | emu/rsrc/resource_file.cc:69-198 | any file laid out for groups within the format's limits loads as the same types, ids, attributes, names and data in the same order |
| FileResolvers.FileResolver.Resolve | gen/typegen/compiler/files.py:53-56 | it succeeds if and only if no needed file is missing or on a cycle; then the list holds exactly the needed files, each once and after its includes; an error names such a file |
| FileResolvers.FileResolver.Dfs | gen/typegen/compiler/files.py:58-71 | the file is listed after everything it leads to, the files being resolved are as before, and a circular error names a file on a cycle |
| FileResolvers.OrderedIsAcyclic | gen/typegen/compiler/files.py:58-71 | nothing a listed file leads to is missing from the list or on a cycle |
| DebugManagers.DebugManager.TagMemory | emu/debug/debug_manager.cc:26-35 | one span more, unless the same one is there; the log stays right if and only if the tag is not empty or the span was there |
| DebugManagers.DebugManager.RecordWrite | emu/debug/debug_manager.cc:37-62 | after any write the spans are sorted and the untagged ones strictly apart, together hold exactly the bytes of all writes, and count the writes; tagged spans stay |
| DebugManagers.DebugManager.ValidMeans | emu/debug/debug_manager.cc:37-62 | what a valid log says: spans by start, a byte between any two untagged ones, and a byte in one of them exactly when some write wrote it |
| DebugManagers.MergeStep | emu/debug/debug_manager.cc:48-55 | merging one span keeps every span passed over clear of the grown one and loses no byte and no count |
| DebugManagers.SortKeeps | emu/debug/debug_manager.h:23-29 | sorting by the span order keeps separation and counts |
| DebugManagers.TagOrder | emu/debug/debug_manager.h:28-28 | the order of tags is total and transitive |
| DebugManagers.TagLessIs | emu/debug/debug_manager.h:28-28 | tags compare by their first difference, and a tag comes before those it begins |
| PackBits.UnpackBits | emu/graphics/pict_v1.cc:39-65 | for any bytes: the packets read, what they expand to, the bytes consumed, and when the length check passes; it fails otherwise only if no packets fill the destination |
| PackBits.FlagMeans | emu/graphics/pict_v1.cc:45-62 | from the flag byte: below 0x80 the flag plus one bytes follow as they are; above, the next byte counts 257 minus the flag times; 0x80 stands for itself |
| PackBits.PacketsUnique | emu/graphics/pict_v1.cc:45-62 | bytes are a serialisation of one list of packets only |
| PackBits.UnpackInverts | emu/graphics/pict_v1.cc:39-65 | unpacking inverts every serialisation of literals and runs that fits, and consumes just its bytes |
| PackBits.MeansWhatItExpandsTo | emu/graphics/pict_v1.cc:48-49 | what is stored is what the format means if and only if there is no 0x80 flag |

## Left out

- RegionOps.RegionOp: the count of a row is kept unbounded; `Regions.StoredIsIntended` gives the exact condition under which
  the 16-bit count does not matter, the contract one on the operands, and `Scanlines.CountFits` one on the span of pixels.
- RegionOps.Offset: of a region that is not canonical only a move that fits is described.
- Emulated memory under the regions: handles, sizes in bytes and byte order are left out; a handle is the region it leads to.
- Bitmaps.BitmapImage.constructor: sizes up to 32767, as the clip region is made of 16-bit coordinates.
- Bitmaps.BitmapImage.FillRow: the scanline must lie on the image; the original checks only against the end of the storage.
- Bitmaps.BitmapImage.FrameRect: for a top of at least zero and a bottom of at least one only; otherwise the original indexes
  the pattern with a negative `row % 8`.
- Bitmaps.BitmapImage.FillEllipse: extents must fit 16 bits; after an overflow, which is undefined in the original, the model
  stops and says nothing of the image.
- Bitmaps.BitmapImage.CopyBits: how far the rect sticks out of the clip's bounding rect must fit 16 bits on each side, as the
  original stores it so; a source rect above or left of the source, or whose last row ends past the end of its memory, is
  excluded.
- Bitmaps.BitmapImage.CopyBitmap: the same limits as for `CopyBits`.
- BitCopy.BitArrayCopy: overlapping buffers are excluded.
- MenuPopUps.MenuPopUp.constructor: the popup may hang over the right edge of the screen, but its last row must end within the
  screen's memory, past which the original would read. Text, separators and shortcuts are any picture inside the popup; fonts
  are not modelled, and a carriage return in a title, which moves the original's text down and past the popup, is excluded.
- MenuManagers.MenuManager.MenuSelect: popups with the same limit. The event queue is any sequence of mouse moves ended
  by a mouse up; the state bits of a menu are a list of booleans, and bits beyond it read as off.
- WindowManagers.WindowManager.InvalidateWindows: drawing of frames and the queueing of update events are left out; the clip
  that each frame is drawn with is returned instead.
- WindowManagers.Window.Invalidate: window frames must stay within 16-bit coordinates.
- WindowManagers.Window.UpdateContentAndStructureRegions: window frames must stay within 16-bit coordinates.
- Typegen.WriteReadType: aliases of `u24`, `str` and sized arrays, enum members, user sizes on other types, and name lookup
  among declarations are left out; a nested struct is held by value.
- Typegen.WriteStruct: the tagging of written memory is left out; see `DebugManager.dfy` for the log itself.
- Memory.MemoryRegion.ReadRaw: sub-regions are offsets into the base region; watchers and the size warning are left out.
- ResourceForks.Save: groups must be within the format's limits; what the 16-bit sums do beyond them is not modelled.
  MacBinary headers and file access are left out.
- FileResolvers.FileResolver.Resolve: a file is its path and the paths it includes; errors in reading or parsing it count as
  missing.
- DebugManagers.DebugManager.RecordWrite: sorting is an insertion sort with the same order.
- PackBits.UnpackBits: a store past the end of the destination, unguarded in the original, ends the model with an error.
- `BitmapImage::FillRegion`, `DragGrayRegion`, `MoveWindow`, `DisposeWindow`, `BeginUpdate` and `EndUpdate`, PICT opcodes, fonts,
  palettes, events, traps, the memory manager, segment and dialog loading are not part of this model.
