/**
 From panes to pixels: the images of a frame, clipped to the panes of a layout, as the terminal
 finally shows them (src/layout.rs together with src/kitty_graphics.rs).
 */
module GraphicsScreen {
  import opened Options
  import opened LayoutGeometry
  import LayoutTree
  import opened GraphicsCache
  import opened GraphicsClip
  import opened GraphicsSimulation
  import opened GraphicsFrames

  /** An image placement in a pane, before clipping. */
  datatype Item = Item(
    paneId: nat, raw: RawPlacement,
    source: SourceKey, hostId: nat, placementId: nat, image: ImageSignature, hasData: bool)
  {
    function Placement(): HostPlacement {
      HostPlacement(source, hostId, placementId, image, Shown(raw), hasData)
    }
  }

  function Placements(items: seq<Item>): (ps: seq<HostPlacement>)
    ensures |ps| == |items| && forall i :: 0 <= i < |items| ==> ps[i] == items[i].Placement()
  {
    seq(|items|, i requires 0 <= i < |items| => items[i].Placement())
  }

  function DrawnRect(d: Drawn): Rect {
    Rect(d.clipped.x, d.clipped.y, d.clipped.cols, d.clipped.rows)
  }

  /** Every image has its pane's content area, which lies inside the pane's rectangle in the layout. */
  ghost predicate InPanes(items: seq<Item>, root: LayoutTree.Node, screen: Rect) {
    forall i :: 0 <= i < |items| ==>
      && items[i].raw.Typed()
      && items[i].paneId in LayoutTree.IdSet(root)
      && items[i].raw.area.Within(LayoutTree.PaneRect(root, screen, items[i].paneId))
  }

  /** After a replayed frame the terminal shows the item, clipped, at its depth and inside its pane. */
  lemma ImageStaysInPane(
    c: Cache, t: Terminal, lost: set<Key>, items: seq<Item>, stale: seq<Key>, root: LayoutTree.Node, screen: Rect,
    i: nat)
    requires Consistent(c) && Mirrors(t, c, lost) && c.replayed == {}
    requires WellFormed(Placements(items)) && Supplied(c, [], Placements(items))
    requires Enumerates(stale, StaleKeys(RequestReplay(c), Placements(items)))
    requires InPanes(items, root, screen) && i < |items| && Clip(items[i].raw).Some?
    ensures var t' := ExecuteAll(t, Frame(RequestReplay(c), Placements(items), stale).1);
            var key := items[i].Placement().Key();
            && key in t'.placements
            && t'.placements[key] == Drawn(Clip(items[i].raw).value, items[i].raw.z)
            && DrawnRect(t'.placements[key]).Within(LayoutTree.PaneRect(root, screen, items[i].paneId))
  {
    hide Frame, Clip, WellFormed, Supplied;
    var ps := Placements(items);
    assert ps[i] in ps;
    ReplayedFrameIsOnScreen(c, t, lost, ps, stale, ps[i]);
    ClipStaysInPane(items[i].raw);
    var t' := ExecuteAll(t, Frame(RequestReplay(c), ps, stale).1);
    var drawn := DrawnRect(t'.placements[ps[i].Key()]);
    WithinTransitive(drawn, items[i].raw.area, LayoutTree.PaneRect(root, screen, items[i].paneId));
  }

  /** Rectangles inside two different panes share no cell. */
  lemma PanesShareNoCell(root: LayoutTree.Node, screen: Rect, p: nat, q: nat, a: Rect, b: Rect, x: int, y: int)
    requires LayoutTree.Unique(root) && LayoutTree.UnitRatios(root)
    requires p in LayoutTree.IdSet(root) && q in LayoutTree.IdSet(root) && p != q
    requires a.Within(LayoutTree.PaneRect(root, screen, p)) && b.Within(LayoutTree.PaneRect(root, screen, q))
    ensures !(a.Covers(x, y) && b.Covers(x, y))
  {
    if a.Covers(x, y) && b.Covers(x, y) {
      var (pr, qr) := (LayoutTree.PaneRect(root, screen, p), LayoutTree.PaneRect(root, screen, q));
      CoversOuter(a, pr, x, y);
      CoversOuter(b, qr, x, y);
      LayoutTree.PaneRectWithin(root, screen, p);
      CoversOuter(pr, screen, x, y);
      LayoutTree.UnitRatiosFit(root, screen);
      LayoutTree.OnePaneAt(root, screen, p, q, x, y);
      assert false;
    }
  }

  /** Images of different panes never overlap on the terminal, whatever was shown or lost before the frame. */
  lemma ImagesOfPanesNeverOverlap(
    c: Cache, t: Terminal, lost: set<Key>, items: seq<Item>, stale: seq<Key>, root: LayoutTree.Node, screen: Rect,
    i: nat, j: nat, x: int, y: int)
    requires Consistent(c) && Mirrors(t, c, lost) && c.replayed == {}
    requires WellFormed(Placements(items)) && Supplied(c, [], Placements(items))
    requires Enumerates(stale, StaleKeys(RequestReplay(c), Placements(items)))
    requires InPanes(items, root, screen) && LayoutTree.Unique(root) && LayoutTree.UnitRatios(root)
    requires i < |items| && j < |items| && Clip(items[i].raw).Some? && Clip(items[j].raw).Some?
    requires items[i].paneId != items[j].paneId
    ensures var t' := ExecuteAll(t, Frame(RequestReplay(c), Placements(items), stale).1);
            var (first, second) := (items[i].Placement().Key(), items[j].Placement().Key());
            && first in t'.placements && second in t'.placements
            && !(DrawnRect(t'.placements[first]).Covers(x, y) && DrawnRect(t'.placements[second]).Covers(x, y))
  {
    hide Frame, Clip, WellFormed, Supplied, Mirrors, Consistent;
    ImageStaysInPane(c, t, lost, items, stale, root, screen, i);
    ImageStaysInPane(c, t, lost, items, stale, root, screen, j);
    var t' := ExecuteAll(t, Frame(RequestReplay(c), Placements(items), stale).1);
    PanesShareNoCell(root, screen, items[i].paneId, items[j].paneId,
                     DrawnRect(t'.placements[items[i].Placement().Key()]),
                     DrawnRect(t'.placements[items[j].Placement().Key()]), x, y);
  }
}
