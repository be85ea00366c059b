# Herdr: a verified model

Herdr is a terminal workspace manager. This project models six of its components in Dafny and proves what they promise:

- the **tiling layout**: a tree of splits with a focused pane (`LayoutGeometry`, `LayoutTree`, `LayoutEdits`, `LayoutResize`, `LayoutNavigate`, `TileLayout`, `TileLayoutObject`);
- the **host graphics cache**, which mirrors what the outer terminal holds so that a frame sends only differences (`GraphicsCache`, `GraphicsCacheObject`, `GraphicsSimulation`, `GraphicsFrames`, `GraphicsClip`, `GraphicsUpload`, `GraphicsScreen`);
- the **re-entrant environment lock** of the test suite (`EnvRestore`, `EnvLock`);
- the **crash-resumable publication** of a release (`ReleasePublication`);
- **process ownership and cancellation** of the test runner (`NextestRun`) and the **packing** of tests by duration (`DurationPacking`);
- the **order of agent views** (`AgentViewOrder`).

`dafny verify dfyconfig.toml` checks everything.

## How the model is built

Code that computes a value is a function, and its properties are lemmas. Objects that the source updates in place (`TileLayout`, `HostGraphicsCache`) are classes whose methods are proved equal to a specification on values; the lemmas about whole runs are about that specification. Threads (`EnvLock`, `NextestRun`) are state machines whose steps are the sections that hold the lock. A publication run is a method that stops after an arbitrary number of requests.

Choices that matter when reading the statements:

- A split ratio is finite (an exact real), infinite or NaN. Rounding is half up, as `round` is on nonnegative numbers. The geometric proofs use only that the first part is between zero and the length, and that both parts grow with the length. Geometry other than the tiling is proved for every ratio from zero to one, which includes a stored NaN, because that converts to a first part of zero.
- Coordinates are natural numbers. `area.Fits()` says that the area's right and bottom edges fit in `u16`; every rectangle and border then does.
- The terminal executes deletions, uploads and displays. An upload does not remove old placements, and displaying an image the terminal does not hold does nothing, so the proofs cannot lean on either.
- The environment has one entry for each variable name, up to case where names ignore it. Names and values are byte strings.
- The release server is written by one run at a time. A run may stop before or after any request, and a stopped upload may leave an unfinished asset.

Where the source and its own description differ, the model follows the source:

- `set_ratio_at` and a resize clamp their result, but `clamp` passes NaN through. The ratio invariant survives exactly when no NaN reaches a split (`TileLayouts.SetRatioKeepsHealthy`).
- A saved tree is restored without checking its ratios (src/layout.rs:361-367). A large ratio makes a pane leave the area (`LayoutTree.LargeRatioBreaksTiling`); the panes tile exactly when every rounded first part fits (`LayoutTree.TilesExactlyWhenPartsFit`).
- Choosing the split to resize is safe for every pane, but a pane squeezed to nothing across the axis may find no split (`LayoutResize.EmptyPaneMayFindNoSplit`); `LayoutResize.EmptyPaneFindsSplit` says when it finds one.
- A placement counts as current before its image is uploaded again (src/kitty_graphics.rs:143 and 164-168). The re-upload then deletes the placement and does not draw it again. `GraphicsSimulation.UpdateAgreesUnlessLost` gives the exact condition, `LossIsPossible` an instance, and `GraphicsFrames.ReplayRestoresAgreement` shows that a requested replay repairs it. Client surfaces reuse host ids but request a replay before every frame, and `GraphicsFrames.ReplayedRunAgrees` proves that this keeps the agreement.
- The comment on `restore_plan` says that a respelled variable is deleted and set again. The code leaves it alone when its value is unchanged (`EnvRestore.RespelledVariableIsLeftAlone`).
- Clipping negates the viewport offset with saturation, so the most negative offset shows one cell too many unless the placement reaches the far edge (`GraphicsClip.ClipShowsTheOverlap`). A pixel position that saturates, or a start that wraps, pushes the source range outside the requested one (`GraphicsClip.InsideRequestExactly` and the two lemmas after it).
- An unfinished asset blocks every later publication run of its tag until somebody removes it (`ReleasePublication.StoppedUploadBlocks`); a run can publish exactly from a resumable server (`ReleasePublication.Publish`).
- A command of the test runner closes its process before it takes it off the list (scripts/run_nextest.py:431-435). A close that raises skips the removal and no `cancel` follows in that command (`NextestRun.CloseFailureCancelsNothing`); the callers in `run` then cancel from outside.

## Model

| member | source | states |
|---|---|---|
| LayoutGeometry.ValidSplitRatio | src/layout.rs:632-638 | a new split's ratio is always in range, and a ratio already in range is kept |
| LayoutGeometry.ClampInRange | src/layout.rs:294-296 | clamping repairs every ratio except NaN, and only that |
| LayoutGeometry.FirstLengthIsNearest | src/layout.rs:704-723 | for every finite ratio the first part is the whole number nearest to its exact share, ties going up, between zero and 65535 |
| LayoutGeometry.FirstLengthOfNonNumbers | src/layout.rs:704-723 | NaN and negative infinity give the first part nothing, positive infinity saturates it |
| LayoutGeometry.FirstLengthMonotone | src/layout.rs:704-723 | both parts of a split grow with the length |
| LayoutGeometry.SplitRectParts | src/layout.rs:704-723 | the two parts abut along the split axis, keep the whole extent across it and stay in the area |
| LayoutGeometry.SplitRectMonotone | src/layout.rs:704-723 | a larger area gives neither part less room |
| LayoutTree.UniqueIsDistinct | src/layout.rs:561-569 | distinct ids in the listing are the same as disjoint subtrees throughout |
| LayoutTree.PanesArePaneRects | src/layout.rs:506-530 | with distinct ids the pane list holds each pane's own rectangle |
| LayoutTree.PanesTileArea | src/layout.rs:506-530 | every cell of the area lies in exactly one pane and any other cell in none, for every tree whose parts fit, in particular for all ratios from zero to one |
| LayoutTree.UnitRatiosFit | src/layout.rs:704-723 | with ratios from zero to one, or NaN, the parts fit in every area |
| LayoutTree.PanesCoverArea | src/layout.rs:506-530 | no cell of the area is left uncovered, whatever the ratios are |
| LayoutTree.TilesExactlyWhenPartsFit | src/layout.rs:506-530 | the panes tile the area if and only if, at every split, the rounded first part ends inside the area of the split or that area has no cells across it |
| LayoutTree.PaneAt | src/layout.rs:506-530 | the pane covering a cell of the area exists and is the only one |
| LayoutTree.LargeRatioBreaksTiling | src/layout.rs:359-367 | a restored ratio of two puts a pane outside an area of ten columns |
| LayoutTree.PaneRectWithin | src/layout.rs:506-530 | every pane lies inside the area |
| LayoutTree.PaneRectMonotone | src/layout.rs:506-530 | laying a tree out in an area that is no smaller gives no pane less room |
| LayoutTree.SplitsSound | src/layout.rs:532-559 | every listed split sits at a split path and carries the ratio and direction found there |
| LayoutTree.SplitsComplete | src/layout.rs:532-559 | every split path is listed |
| LayoutTree.SplitsInPreorder | src/layout.rs:532-559 | splits are listed in strict preorder |
| LayoutTree.SplitPathsDistinct | src/layout.rs:532-559 | no two listed splits share a path |
| LayoutTree.SplitCount | src/layout.rs:532-559 | there is one split fewer than there are panes |
| LayoutTree.WithRatioSucceeds | src/layout.rs:663-702 | setting and reading a ratio succeed exactly on the split paths |
| LayoutTree.WithRatioChangesOne | src/layout.rs:663-682 | setting a ratio writes that split and no other, and keeps every id |
| LayoutTree.WithRatioKeepsOutside | src/layout.rs:663-682 | panes outside the addressed split keep their rectangles |
| LayoutEdits.RemoveKeepsOthers | src/layout.rs:640-661 | closing drops exactly the target, keeps the order of the others, and leaves nothing only for a lone pane |
| LayoutEdits.ClosingShrinksNoPane | src/layout.rs:640-661 | closing shrinks no surviving pane and moves none outside the sibling subtree |
| LayoutEdits.ClosedRoomGoesToSibling | src/layout.rs:640-661 | every cell of the closed pane goes to a pane of the sibling subtree |
| LayoutEdits.ReplaceFinds | src/layout.rs:613-621 | the pane to split is found exactly when its id is in the tree |
| LayoutEdits.SplitAddsPane | src/layout.rs:623-630 | splitting adds exactly the new id and keeps ids distinct and ratios in range |
| LayoutEdits.RemoveUndoesSplit | src/layout.rs:640-661 | closing a freshly split pane gives back the tree |
| LayoutEdits.Position | src/layout.rs:143-143 | the first entry with the id, or none when there is none |
| LayoutEdits.SplitIsPredicted | src/layout.rs:132-153 | the predicted rectangles and index are exactly those the split produces; only the new id differs |
| LayoutEdits.SplitLeafTakesRect | src/layout.rs:613-630 | the new split is laid out in the old rectangle of its target, and no other pane moves |
| LayoutEdits.SwapRelabels | src/layout.rs:597-611 | swapping moves no rectangle, relabels in place, and undoes itself |
| LayoutEdits.SwapTradesRects | src/layout.rs:597-611 | the two swapped panes trade rectangles and every other pane keeps its own |
| LayoutResize.Nearest | src/layout.rs:449-461 | the chosen split passes all three filters and none that passes is nearer |
| LayoutResize.NearestIsFirst | src/layout.rs:449-461 | among splits at the same distance the first in preorder is chosen |
| LayoutResize.EdgeDistanceOf | src/layout.rs:472-483 | the distance is measured from the edge the direction names |
| LayoutResize.BorderSeparatesSides | src/layout.rs:532-559 | a border separates the panes of its two sides, all of which lie in its area |
| LayoutResize.SplitAreaIsItsPanes | src/layout.rs:532-559 | the area of a listed split is exactly the room of the panes below it |
| LayoutResize.NearestIsAncestor | src/layout.rs:449-483 | whatever split is nearest is an ancestor of the focused pane on the requested axis, never one in another branch |
| LayoutResize.SelectedSplitIsAncestor | src/layout.rs:300-324 | the split picked with the fallback is such an ancestor, whatever the pane's size |
| LayoutResize.SplitIsSelected | src/layout.rs:300-324 | for a pane with some extent across the axis a split is picked exactly when one divides its axis |
| LayoutResize.EmptyPaneFindsSplit | src/layout.rs:300-324 | a pane squeezed to nothing across the axis finds a split if and only if a split above it on the axis strictly encloses its place and lies within one cell of one of its edges |
| LayoutResize.EmptyPaneMayFindNoSplit | src/layout.rs:430-447 | such a pane may find none although a split divides its axis |
| LayoutResize.RatioMovesSides | src/layout.rs:663-682 | raising one ratio gives the panes on its first side no less and those on its second no more |
| LayoutResize.ResizeMovesRequestedEdge | src/layout.rs:298-324 | resizing towards an inner edge never shrinks a nonempty pane for a nonnegative delta; towards an outer edge it never grows it; and the reverse for a negative delta |
| LayoutNavigate.BestTarget | src/layout.rs:380-426 | the target chosen passes the filters and no other is better by gap, overlap, centre distance and position |
| LayoutNavigate.NeighbourExists | src/layout.rs:373-428 | past an edge with room beyond it lies a candidate that touches the edge and shares a cell with it |
| LayoutNavigate.NavigationFindsNeighbour | src/layout.rs:372-432 | from a nonempty pane with room beyond it, navigation lands on another pane that touches its edge and overlaps it |
| LayoutNavigate.NavigationPrefers | src/layout.rs:372-432 | of all panes touching that edge it takes the one sharing most cells, then the one with the nearest centre, then the first |
| LayoutNavigate.NavigationStopsAtEdge | src/layout.rs:372-432 | at the outer edge it finds nothing when every pane has some extent |
| TileLayouts.SplitKeepsHealthy | src/layout.rs:182-192 | splitting keeps the layout healthy, adds the new id, and changes nothing for a missing target |
| TileLayouts.SplitDividesTarget | src/layout.rs:180-192 | in every area a split divides the target's rectangle along the requested axis: the target first, with its share to the nearest cell, the new pane behind it, both with the whole cross extent; no other pane moves, and focus and history stay |
| TileLayouts.SplitMatchesPrediction | src/layout.rs:132-153 | the pane list after the operation is the prediction with the new id filled in, and there is a prediction exactly for a present target |
| TileLayouts.InsertDividesTarget | src/layout.rs:194-220 | an insert divides the target in the same way, and moves the focus only if asked; otherwise nothing changes |
| TileLayouts.FocusMoves | src/layout.rs:273-277 | a present pane gets the focus and the pane being left is remembered; an absent one changes nothing |
| TileLayouts.CloseKeepsHealthy | src/layout.rs:222-271 | closing keeps the layout healthy and removes exactly the closed id |
| TileLayouts.CloseReturnsToRemembered | src/layout.rs:236-239 | in a healthy layout the remembered pane is always live, so closing the focused pane returns to it |
| TileLayouts.CloseMovesToNeighbour | src/layout.rs:222-250 | without a remembered pane the focus moves to the next pane in order, or to the previous one from the last |
| TileLayouts.CloseElsewhereKeepsFocus | src/layout.rs:252-271 | closing another pane keeps the focus, and the remembered pane unless it was the closed one |
| TileLayouts.CloseGivesRoomAway | src/layout.rs:222-271 | after a close the other panes keep their order, none shrinks and none outside the sibling subtree moves |
| TileLayouts.SwapKeepsHealthy | src/layout.rs:279-291 | swapping keeps the layout healthy and the same ids |
| TileLayouts.SwapTradesPanes | src/layout.rs:279-291 | the operation trades the two rectangles and leaves every other pane, focus and history alone |
| TileLayouts.SetRatioKeepsHealthy | src/layout.rs:293-296 | setting a ratio keeps the layout healthy exactly unless a NaN reaches a split |
| TileLayouts.SetRatioStoresClamped | src/layout.rs:293-296 | the addressed ratio becomes the clamped one and nothing else changes |
| TileLayouts.ResizeChangesOneAncestor | src/layout.rs:298-342 | a resize changes at most one ratio, that of an ancestor of the pane on the requested axis, and neither focus nor history |
| TileLayouts.ResizeStoresStep | src/layout.rs:298-342 | a resize stores at the selected split, and nowhere else, the old ratio plus the delta for right and down, minus it for left and up, within the range; the split divides columns for left and right, rows for up and down; without a split nothing changes |
| TileLayouts.CloseUndoesSplit | src/layout.rs:180-192 | closing the pane a split added restores tree, focus and history |
| TileLayouts.CloseUndoesUnfocusedInsert | src/layout.rs:194-220 | so does closing a pane inserted without focus |
| TileLayouts.CloseAfterFocusedInsert | src/layout.rs:194-250 | closing a pane inserted with focus restores tree and focus but forgets older history |
| TileLayouts.StepKeepsHealthy | src/layout.rs:94-342 | every operation keeps the layout healthy and every id below the allocator |
| TileLayouts.RunsStayHealthy | src/layout.rs:94-342 | every run of operations does, with distinct ids and at least one pane left |
| TileLayoutObject.CollectPanes | src/layout.rs:506-530 | appends exactly the panes of the subtree to what was collected |
| TileLayoutObject.CollectSplits | src/layout.rs:532-559 | appends exactly the splits of the subtree and hands the path back as it came |
| TileLayoutObject.CollectIds | src/layout.rs:561-569 | appends exactly the ids of the subtree |
| TileLayoutObject.RatiosDetermineTree | src/layout.rs:571-595 | trees of one shape with the same ratio list are the same tree |
| TileLayoutObject.TileLayout.New | src/layout.rs:95-107 | a healthy layout of one freshly allocated, focused pane |
| TileLayoutObject.TileLayout.FromSaved | src/layout.rs:359-367 | the saved tree and focus as they are, healthy exactly when they were |
| TileLayoutObject.TileLayout.SetFocus | src/layout.rs:109-115 | a real focus move remembers the pane being left |
| TileLayoutObject.TileLayout.GetPanes | src/layout.rs:125-130 | the rectangles of all panes |
| TileLayoutObject.TileLayout.GetSplits | src/layout.rs:155-160 | the borders of all splits |
| TileLayoutObject.TileLayout.PredictSplit | src/layout.rs:132-153 | the prediction that the split is proved to match, leaving the layout alone |
| TileLayoutObject.TileLayout.SplitPane | src/layout.rs:180-192 | splits the target with a fresh id, or changes nothing when it is missing |
| TileLayoutObject.TileLayout.InsertPaneNear | src/layout.rs:194-220 | inserts exactly when the target is present and the moved pane is not |
| TileLayoutObject.TileLayout.CloseFocused | src/layout.rs:222-250 | closes unless it is the last pane; the placeholder root never survives |
| TileLayoutObject.TileLayout.ClosePane | src/layout.rs:252-271 | closes exactly a present pane that is not the last |
| TileLayoutObject.TileLayout.FocusPane | src/layout.rs:273-277 | moves focus exactly to a present pane |
| TileLayoutObject.TileLayout.SwapPanes | src/layout.rs:279-291 | swaps exactly two different present panes |
| TileLayoutObject.TileLayout.SetRatioAt | src/layout.rs:293-296 | succeeds exactly on a split path, and leaves the layout valid unless a NaN got in |
| TileLayoutObject.TileLayout.ResizeFocused | src/layout.rs:298-324 | resizes the selected split of the focused pane |
| TileLayoutObject.TileLayout.ResizePane | src/layout.rs:326-342 | gives focus back, and reports a change exactly when the tree changed |
| GraphicsSimulation.UploadMirrors | src/kitty_graphics.rs:154-180 | uploading keeps the terminal a mirror and drops the placements of a replaced image |
| GraphicsSimulation.ReleaseMirrors | src/kitty_graphics.rs:200-216 | releasing a superseded image keeps the mirror, and keeps every image a source shows |
| GraphicsSimulation.UpdateMirrors | src/kitty_graphics.rs:129-198 | after one update the terminal holds the cached images and the cached placements except the lost ones |
| GraphicsSimulation.UpdateAgreesUnlessLost | src/kitty_graphics.rs:142-195 | from agreement, an update breaks it exactly when a current placement's image is uploaded again, and then only for that placement |
| GraphicsSimulation.LossIsPossible | src/kitty_graphics.rs:142-195 | such a loss happens when a host id is reused for another image |
| GraphicsSimulation.FrameMirrors | src/kitty_graphics.rs:218-268 | a whole frame keeps the mirror, in any order of the stale placements |
| GraphicsSimulation.ClearEmpties | src/kitty_graphics.rs:283-293 | clearing empties the terminal |
| GraphicsSimulation.RetireMirrors | src/kitty_graphics/surface.rs:496-505 | deleting the stale images of a client surface keeps the mirror, and takes exactly the listed ids from cache and terminal |
| GraphicsSimulation.RunMirrors | src/kitty_graphics.rs:129-293 | after every run of frames, replay requests, retired images and clears the terminal is the cache without the lost placements, and every placement's and source's image is cached |
| GraphicsSimulation.RunAgrees | src/kitty_graphics.rs:129-293 | when live host ids keep their images, terminal and cache agree after every run |
| GraphicsSimulation.NamedIdsNeverDiverge | src/kitty_graphics.rs:390-409 | from an empty cache, terminal images whose host ids each stand for one image never diverge, however long the run |
| GraphicsFrames.UpdateFreesSuperseded | src/kitty_graphics.rs:200-216 | an update frees exactly the image its source no longer shows and no other source does |
| GraphicsFrames.UpdateWithoutDataDoesNothing | src/kitty_graphics.rs:153-163 | a placement that is clipped away, or whose image is neither cached nor supplied, changes and sends nothing |
| GraphicsFrames.UpdateUploadsMissing | src/kitty_graphics.rs:129-198 | any other update uploads exactly an image that is not cached, and caches placement, image and source |
| GraphicsFrames.UpdateIsIdempotent | src/kitty_graphics.rs:129-198 | a second update with the same placement is silent, even while a replay is pending |
| GraphicsFrames.FrameIsEffective | src/kitty_graphics.rs:218-268 | no frame uploads over an image the terminal holds or displays one it does not hold |
| GraphicsFrames.FrameUploadsOnce | src/kitty_graphics.rs:218-268 | a well-formed frame uploads under each host id at most once |
| GraphicsFrames.FrameCachesExactly | src/kitty_graphics.rs:218-268 | after a well-formed frame whose missing data is cached or came with an earlier placement, the cached placements are exactly the visible ones, whatever the earlier cache |
| GraphicsFrames.RepeatedFrameIsSilent | src/kitty_graphics.rs:218-268 | drawing the same placements again, with or without their data, emits nothing and changes nothing |
| GraphicsFrames.FrameIsOnScreen | src/kitty_graphics.rs:218-268 | the terminal then shows exactly the visible placements with their images |
| GraphicsFrames.ReplayRestoresAgreement | src/kitty_graphics.rs:276-281 | after a replay request a well-formed frame repairs every earlier loss |
| GraphicsFrames.ReplayedFrameIsOnScreen | src/kitty_graphics/surface.rs:542-543 | after such a frame the terminal shows exactly the visible placements with their images, whatever was lost before |
| GraphicsFrames.ReplayedRunAgrees | src/kitty_graphics/surface.rs:542-543 | a caller that requests a replay before every frame keeps terminal and cache in agreement over every run, even when host ids are reused for other images |
| GraphicsCacheObject.HostGraphicsCache.ReleaseSuperseded | src/kitty_graphics.rs:200-216 | the release step of the specification, in place |
| GraphicsCacheObject.HostGraphicsCache.EncodePlacementUpdate | src/kitty_graphics.rs:129-198 | the update of the specification; none exactly when nothing is emitted or changed |
| GraphicsCacheObject.HostGraphicsCache.EncodeGraphicsOutput | src/kitty_graphics.rs:218-268 | the frame of the specification, for the order in which it met the stale placements |
| GraphicsCacheObject.HostGraphicsCache.RequestPlacementReplay | src/kitty_graphics.rs:276-281 | starts a replay unless one is pending |
| GraphicsCacheObject.HostGraphicsCache.RetireImages | src/kitty_graphics/surface.rs:496-505 | deletes each listed image the cache holds, with its placements and sources |
| GraphicsCacheObject.HostGraphicsCache.ClearBytes | src/kitty_graphics.rs:283-293 | deletes every cached image and empties the cache |
| GraphicsClip.ClipStaysInside | src/kitty_graphics.rs:495-637 | the visible cells lie in the pane, and the source range is a nonempty part of the image |
| GraphicsClip.InsideRequestExactly | src/kitty_graphics.rs:571-618 | for every input, the source range stays inside the requested one if and only if its start does not wrap and its scaled end is inside, or the image ends there |
| GraphicsClip.ClipStaysInsideRequest | src/kitty_graphics.rs:571-618 | as long as the pixels up to the last visible cell fit 32 bits, that is so if and only if the start does not wrap |
| GraphicsClip.SaturatedCropLeavesRequest | src/kitty_graphics.rs:571-600 | when the pixels before the pane saturate, the source range always leaves the requested one |
| GraphicsClip.ClipSamplesShare | src/kitty_graphics.rs:560-600 | the source range starts at the last whole source pixel before the first visible cell and is as long as the visible cells are in source pixels, at least one, up to the end of the image |
| GraphicsClip.UnclippedKeepsSource | src/kitty_graphics.rs:495-637 | a placement that fits its pane is not cropped at all |
| GraphicsClip.ClipShowsTheOverlap | src/kitty_graphics.rs:515-559 | the cells shown are those the placement and the pane have in common if and only if the offset is not the most negative one or the placement reaches the far edge; otherwise there is exactly one too many |
| GraphicsClip.ClipDrawsExactly | src/kitty_graphics.rs:515-611 | something is drawn if and only if placement and pane have a cell in common and the source range starts inside the image; the most negative offset needs only to reach the pane |
| GraphicsClip.ClipDrawsBothAxes | src/kitty_graphics.rs:495-637 | a placement is drawn if and only if both axes draw; each field of the result comes from its own axis, and an offset is kept exactly on an axis that is not cut at the front |
| GraphicsClip.SignatureTellsApart | src/kitty_graphics.rs:666-686 | signatures agree exactly when what is drawn, depth and scroll offset agree |
| GraphicsClip.MostNegativeOffsetShowsOneCellTooMany | src/kitty_graphics.rs:515-524 | the most negative offset can show a cell of a placement that ends before the pane |
| GraphicsClip.SaturatedExtentLeavesRequest | src/kitty_graphics.rs:571-600 | an input for which they saturate and the source range leaves the request |
| GraphicsClip.ClipStaysInPane | src/kitty_graphics.rs:495-637 | the drawn rectangle lies in the pane and on screen and samples a nonempty part of the image |
| GraphicsUpload.Base64RoundTrip | src/kitty_graphics.rs:709-714 | decoding the encoding of any data gives it back |
| GraphicsUpload.SymbolIsStandard | src/kitty_graphics.rs:709-714 | the symbols are those of the standard alphabet |
| GraphicsUpload.Base64Concat | src/kitty_graphics.rs:704-716 | encoding piecewise at a multiple of three bytes is encoding at once |
| GraphicsUpload.UploadCarriesData | src/kitty_graphics.rs:699-718 | the payloads concatenate to the base64 of the data, every message but the last is a full unpadded chunk with m=1, and only the first carries the control |
| GraphicsUpload.UploadIsReceived | src/kitty_graphics.rs:699-718 | a strict receiver accepts the bytes, finds the control and m=1 or m=0 where they belong, full payloads except in the last message, and decodes the data |
| GraphicsUpload.WriteKittyData | src/kitty_graphics.rs:699-718 | the loop writes exactly the rendered messages, and nothing for empty data |
| GraphicsUpload.UploadSize | src/kitty_graphics.rs:699-718 | the exact number of bytes written |
| GraphicsUpload.EstimateCoversUpload | src/kitty_graphics.rs:123-127 | the estimate is never exceeded, for controls of up to 1024 bytes and any slice |
| GraphicsUpload.EstimateIsTight | src/kitty_graphics.rs:123-127 | unless it saturates, the estimate exceeds the bytes written by exactly seven a chunk and 1023 less the control |
| GraphicsScreen.ImageStaysInPane | src/kitty_graphics/surface.rs:508-544 | after a replayed frame the terminal shows every image as clipped, at its depth, inside its pane of the layout |
| GraphicsScreen.ImagesOfPanesNeverOverlap | src/kitty_graphics/surface.rs:508-544 | images of different panes never share a cell on the terminal |
| EnvRestore.PlanRestores | src/config.rs:240-261 | carrying out the plan makes the restorable environment what the snapshot shows, with or without case |
| EnvRestore.PlanIsMinimal | src/config.rs:240-261 | every change of the plan is needed, so a restored environment gets an empty plan |
| EnvRestore.PlanIsSafe | src/config.rs:263-273 | the plan only uses names and values that cannot make the calls panic |
| EnvRestore.ListingShows | src/config.rs:243-253 | looking up a listing of the environment shows its restorable part |
| EnvRestore.KeyOfSafeName | src/config.rs:275-282 | a key is restorable exactly when its name is |
| EnvRestore.SameKeyExactly | src/config.rs:275-282 | names share a key exactly when they are equal, or differ only in ASCII case where that is ignored |
| EnvRestore.SafeChangesKeepUnsafeNames | src/config.rs:263-273 | variables whose names are not restorable are never touched |
| EnvRestore.RespelledVariableIsLeftAlone | src/config.rs:240-261 | in any snapshot and listing, a variable still present under some spelling is set again if and only if its value differs, is never removed, and otherwise is not touched at all |
| EnvLock.StepKeepsInv | src/config.rs:176-222 | every step keeps one owner, a depth that counts its guards, and a snapshot or a plan that leads back to the original environment |
| EnvLock.ExecutionKeepsInv | src/config.rs:143-222 | so does every interleaving of any number of threads |
| EnvLock.OneHolder | src/config.rs:176-222 | at most one thread holds guards, and the depth is their number |
| EnvLock.FreeMeansRestored | src/config.rs:201-222 | whenever the lock is free the restorable environment is the original one |
| EnvLock.EveryVariableIsBack | src/config.rs:201-273 | then every variable that can be set has its original value and none was added, told from names and values alone |
| EnvLock.AcquireExactly | src/config.rs:176-193 | a thread may acquire if and only if no other thread holds or is giving back the lock, however often it holds it itself |
| EnvLock.NestedAcquireUndone | src/config.rs:176-207 | a nested acquire adds one guard and one level and keeps the snapshot; dropping it takes the state back exactly |
| EnvLock.HolderCanRelease | src/config.rs:201-222 | from every reachable state the holder can, by steps of its own, free the lock with the environment restored |
| EnvLock.OutermostAcquireSeesOriginal | src/config.rs:176-193 | every outermost acquire finds and snapshots the original environment |
| EnvLock.ReleaseIsNeverStuck | src/config.rs:201-222 | a thread inside a release always has a next step of its own |
| EnvLock.RestoringNeverPanics | src/config.rs:224-232 | no call made while restoring can panic |
| ReleasePublication.FindReleases | scripts/gx_release.py:346-353 | the paged listing finds exactly the releases of the tag, and fails exactly from a hundred full pages on |
| ReleasePublication.VerifiedIsExact | scripts/gx_release.py:558-571 | a complete asset list is accepted if and only if it consists of one finished asset with the name, size and digest of each file |
| ReleasePublication.UploadMissing | scripts/gx_release.py:608-619 | the upload loop changes only the draft's assets, and when it ends they are complete |
| ReleasePublication.OpenDraft | scripts/gx_release.py:584-605 | tags and drafts without moving a tag or adding a second release; refuses without a change |
| ReleasePublication.FillAndPublish | scripts/gx_release.py:606-627 | publishes only a draft that holds exactly the build's files |
| ReleasePublication.Publish | scripts/gx_release.py:584-630 | a run stopped anywhere keeps the server sound and changes nothing for another build's draft or an unfinished asset; it publishes only from a resumable server and, given enough requests, exactly from one |
| ReleasePublication.StoppedUploadBlocks | scripts/gx_release.py:608-619 | a first run that stops inside its first upload leaves an unfinished asset, and no later run of any build changes the server |
| ReleasePublication.Campaign | scripts/gx_release.py:584-630 | any sequence of runs with any builds, each stopping anywhere, never moves a tag, keeps at most one release and never changes a published one |
| ReleasePublication.PublishedIsOneBuild | scripts/gx_release.py:620-627 | a published release is the only one of its tag, bound to its commit, and holds exactly the files of one single build by name, size, digest and upload state |
| ReleasePublication.Retry | scripts/gx_release.py:584-630 | retrying one build publishes it as soon as one run gets through, however the others were cut short |
| NextestRun.StepKeepsInv | scripts/run_nextest.py:358-435 | every step keeps each owned process with exactly one thread, and a cancelled run's processes stopped |
| NextestRun.NothingLaunchedAfterCancel | scripts/run_nextest.py:394-402 | once cancellation is set it stays set and nothing is launched any more |
| NextestRun.LaunchExactly | scripts/run_nextest.py:394-402 | a waiting command launches and owns its process if and only if the run is not cancelled |
| NextestRun.CancelStopsListed | scripts/run_nextest.py:358-374 | cancelling stops exactly the listed processes and takes none off the list |
| NextestRun.CancelReachesEveryProcess | scripts/run_nextest.py:358-374 | after cancellation every process ever launched was stopped or released by its own thread |
| NextestRun.CancelledExactly | scripts/run_nextest.py:358-435 | the run is cancelled if and only if somebody outside called cancel or a command failed before closing its process |
| NextestRun.FailureCancelsEverything | scripts/run_nextest.py:422-435 | without an outside call, a command that raised leaves the run cancelled if and only if some command failed before closing; every process is then stopped or released |
| NextestRun.FailureIsNeverLost | scripts/run_nextest.py:422-435 | once a launch or a run has failed, its command can only end by raising, with the run cancelled |
| NextestRun.CompletionIsNeverLost | scripts/run_nextest.py:415-435 | a command that completed does not raise unless closing its process does |
| NextestRun.CommandCanEnd | scripts/run_nextest.py:376-435 | no command is stuck: by steps of its own it can end with its process released |
| NextestRun.CloseFailureCancelsNothing | scripts/run_nextest.py:431-435 | a close that raises ends its command with an error, cancels nothing and leaves the process in the list |
| NextestRun.LeftBehindExactly | scripts/run_nextest.py:431-435 | when every command has ended, the list holds exactly the processes whose close raised, and all others were released |
| NextestRun.NothingLeftBehind | scripts/run_nextest.py:431-435 | so nothing is left behind if and only if every close went through |
| NextestRun.RemoveAlwaysFinds | scripts/run_nextest.py:431-435 | the process a thread removes from the list is always in it |
| NextestRun.StopAll | scripts/run_nextest.py:361-374 | every owned process gets a stop, a second one after an interrupt, whatever the others do; it fails exactly when some stop was not clean |
| NextestRun.AllocationIsFair | scripts/run_nextest.py:42-52 | jobs are given out exactly when there is one for each shard; all are given out and no shard gets more than one job more than another |
| DurationPacking.GreedyPacks | scripts/run_parallel_unittest.py:96-114 | the greedy chunks partition the tests in order and each fits the target or is a single test |
| DurationPacking.TotalIsSum | scripts/run_parallel_unittest.py:105-111 | the time of a chunk is the sum of its recorded durations, with a fixed time for an unknown test |
| DurationPacking.GreedyFillsChunks | scripts/run_parallel_unittest.py:105-111 | no chunk has room for the first test of the next one |
| DurationPacking.GreedyStaysAhead | scripts/run_parallel_unittest.py:105-111 | the greedy loop is never behind any other packing of the same tests |
| DurationPacking.GreedyIsOptimal | scripts/run_parallel_unittest.py:96-114 | no packing that fits has fewer chunks |
| DurationPacking.SplitByDuration | scripts/run_parallel_unittest.py:96-114 | without recorded durations one chunk; otherwise a packing that fits and leaves no chunk room for the next test, with the fewest chunks when durations are nonnegative |
| AgentViewOrder.CompareEntries | src/agent_view_eval.rs:65-81 | the first sort that ranks the entries decides: less when it ranks the left one first, greater when the right one |
| AgentViewOrder.CompareValuesLaws | src/agent_view_eval.rs:31-37 | the derived order on values is total, antisymmetric and transitive |
| AgentViewOrder.CompareTextIsDictionary | src/agent_view_eval.rs:31-37 | texts compare as in a dictionary: a proper prefix first, else by the first differing character |
| AgentViewOrder.CompareValuesIsBefore | src/agent_view_eval.rs:31-37 | texts come before scoped ids before flags before numbers, and the smaller value first within a kind |
| AgentViewOrder.CompareByIsFirst | src/agent_view_eval.rs:166-213 | each sort ranks by the field it names: the smaller value first when ascending, the larger when descending, a missing one last |
| AgentViewOrder.CompareIsLexicographic | src/agent_view_eval.rs:65-81 | the whole comparison, told from the entries' fields: the first sort that ranks them decides, in its direction |
| AgentViewOrder.CompareReverses | src/agent_view_eval.rs:65-81 | swapping the entries reverses the result, for every list of sorts |
| AgentViewOrder.CompareComposes | src/agent_view_eval.rs:65-81 | the order is transitive and equal entries are interchangeable |
| AgentViewOrder.EqualMeansSameValues | src/agent_view_eval.rs:65-81 | entries are equal exactly when every sort sees the same value, or none, in both |
| AgentViewOrder.MissingValueComesLast | src/agent_view_eval.rs:195-213 | an entry lacking the first deciding field comes last, ascending or descending |
| AgentViewOrder.SortedPairs | src/agent_view_eval.rs:65-81 | neighbours in order put the whole list in order |
| AgentViewOrder.MissingEntriesFormTail | src/agent_view_eval.rs:195-213 | in a sorted list the entries without the first sort's field form the tail |

## Left out

- f32 rounding of the product of a length and a ratio, and of a ratio and a delta: finite ratios are exact reals.
- Wrap-around of the 32-bit pane id counter: ids grow without bound.
- Inner rectangles, borders and scroll bars of a pane, which rendering fills in later: a pane has one rectangle.
- Hash values behind host image ids and placement ids, and the collection of visible placements from the running terminals: a placement arrives with its ids.
- Byte formats of the delete and display commands, and the split of the output into shared and inline uploads: commands are values in emission order.
- GraphicsCacheObject.HostGraphicsCache.EncodeGraphicsOutput: stale placements are deleted in any order, which covers the sorted order of the source.
- The spelling of variable names where case is ignored: restoring is about values by name.
- Waking one waiting thread when the lock is released: only what may happen is modelled, not when.
- Annotated tag objects behind a release tag: a tag is read as the commit it resolves to, or refused.
- HTTP retries, redirects, permission checks, downloads and local file checks of a publication run: each only makes the run stop.
- How a process is stopped on each system, the run manifest, job counts given as text, and an interrupt that arrives between starting a process and recording it.
- Floating-point sums of durations: durations are exact reals.
- Filters of agent views, the configuration, command line, sockets, and the other scripts: they would add only easier members.
