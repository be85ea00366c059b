/** Directional focus movement (`find_in_direction`, src/layout.rs). */
module LayoutNavigate {
  import opened Options
  import opened LayoutGeometry
  import opened LayoutTree
  import opened LayoutResize

  function SaturatingSum(a: nat, b: nat): nat {
    if a + b > U16_MAX then U16_MAX else a + b
  }

  function Monus(a: nat, b: nat): nat {
    if a < b then 0 else a - b
  }

  /** `range_overlap_amount`. */
  function OverlapAmount(a: Rect, b: Rect, d: Direction): nat {
    var (aEnd, bEnd) := (SaturatingSum(a.Lo(d), a.Length(d)), SaturatingSum(b.Lo(d), b.Length(d)));
    Monus(if aEnd < bEnd then aEnd else bEnd, if a.Lo(d) < b.Lo(d) then b.Lo(d) else a.Lo(d))
  }

  /** `range_center_distance`. */
  function CenterDistance(a: Rect, b: Rect, d: Direction): nat {
    var aCenter := SaturatingSum(SaturatingSum(a.Lo(d), a.Lo(d)), a.Length(d));
    var bCenter := SaturatingSum(SaturatingSum(b.Lo(d), b.Lo(d)), b.Length(d));
    if aCenter < bCenter then bCenter - aCenter else aCenter - bCenter
  }

  /** The filters: another pane, wholly beyond the focused edge, overlapping it across the direction. */
  predicate IsTarget(p: PaneInfo, focused: PaneInfo, nav: NavDirection) {
    var (r, f, axis, across) := (p.rect, focused.rect, Axis(nav), Other(Axis(nav)));
    && p.id != focused.id
    && (if Forward(nav) then r.Lo(axis) >= f.Hi(axis) else r.Hi(axis) <= f.Lo(axis))
    && RangesOverlap(r.Lo(across), r.Length(across), f.Lo(across), f.Length(across))
  }

  function Gap(r: Rect, f: Rect, nav: NavDirection): nat {
    if Forward(nav) then Monus(r.Lo(Axis(nav)), f.Hi(Axis(nav))) else Monus(f.Lo(Axis(nav)), r.Hi(Axis(nav)))
  }

  /** Lexicographic: smaller gap, larger overlap, smaller centre distance, smaller index. */
  predicate Better(p: PaneInfo, i: nat, q: PaneInfo, j: nat, f: Rect, nav: NavDirection) {
    var across := Other(Axis(nav));
    var (gapP, gapQ) := (Gap(p.rect, f, nav), Gap(q.rect, f, nav));
    var (overlapP, overlapQ) := (OverlapAmount(p.rect, f, across), OverlapAmount(q.rect, f, across));
    var (centerP, centerQ) := (CenterDistance(p.rect, f, across), CenterDistance(q.rect, f, across));
    || gapP < gapQ
    || (gapP == gapQ && overlapP > overlapQ)
    || (gapP == gapQ && overlapP == overlapQ && centerP < centerQ)
    || (gapP == gapQ && overlapP == overlapQ && centerP == centerQ && i < j)
  }

  /** `min_by_key` over the first `n` panes. */
  function BestTarget(focused: PaneInfo, nav: NavDirection, panes: seq<PaneInfo>, n: nat): (r: Option<nat>)
    requires n <= |panes|
    ensures r.Some? ==> r.value < n && IsTarget(panes[r.value], focused, nav)
    ensures forall i :: 0 <= i < n && IsTarget(panes[i], focused, nav) ==>
              r.Some? && !Better(panes[i], i, panes[r.value], r.value, focused.rect, nav)
  {
    if n == 0 then None
    else
      var best := BestTarget(focused, nav, panes, n - 1);
      if IsTarget(panes[n - 1], focused, nav)
         && (best.None? || Better(panes[n - 1], n - 1, panes[best.value], best.value, focused.rect, nav))
      then Some(n - 1)
      else best
  }

  /** `find_in_direction`. */
  function FindInDirection(focused: PaneInfo, nav: NavDirection, panes: seq<PaneInfo>): Option<nat> {
    match BestTarget(focused, nav, panes, |panes|)
    case None => None
    case Some(i) => Some(panes[i].id)
  }

  function CellX(axis: Direction, along: int, across: int): int { if axis.Horizontal? then along else across }
  function CellY(axis: Direction, along: int, across: int): int { if axis.Horizontal? then across else along }

  predicate CoversCell(r: Rect, axis: Direction, along: int, across: int) {
    r.Covers(CellX(axis, along, across), CellY(axis, along, across))
  }

  /** The pane just past the focused edge starts there: it covers that cell and not the focused one. */
  lemma NeighbourTouches(f: Rect, r: Rect, nav: NavDirection)
    requires f.width > 0 && f.height > 0
    requires Forward(nav) || f.Lo(Axis(nav)) > 0
    requires CoversCell(r, Axis(nav), PastEdge(f, nav), f.Lo(Other(Axis(nav))))
    requires !CoversCell(r, Axis(nav), LastCell(f, nav), f.Lo(Other(Axis(nav))))
    ensures if Forward(nav) then r.Lo(Axis(nav)) == f.Hi(Axis(nav)) else r.Hi(Axis(nav)) == f.Lo(Axis(nav))
    ensures var across := Other(Axis(nav));
            r.Lo(across) <= f.Lo(across) < r.Hi(across)
  {
  }

  predicate ShareRows(r: Rect, f: Rect) {
    r.height > 0 && f.height > 0 && r.y < f.y + f.height && f.y < r.y + r.height
  }

  predicate ShareColumns(r: Rect, f: Rect) {
    r.width > 0 && f.width > 0 && r.x < f.x + f.width && f.x < r.x + r.width
  }

  /** The pane lies directly beyond that edge of the focused one and shares at least a row (or column) with it. */
  predicate Touches(r: Rect, f: Rect, nav: NavDirection) {
    match nav
    case Left => r.x + r.width == f.x && ShareRows(r, f)
    case Right => f.x + f.width == r.x && ShareRows(r, f)
    case Up => r.y + r.height == f.y && ShareColumns(r, f)
    case Down => f.y + f.height == r.y && ShareColumns(r, f)
  }

  /** The cell just past the focused edge, and the last one before it. */
  function PastEdge(f: Rect, nav: NavDirection): int {
    if Forward(nav) then f.Hi(Axis(nav)) else f.Lo(Axis(nav)) - 1
  }

  function LastCell(f: Rect, nav: NavDirection): int {
    if Forward(nav) then f.Hi(Axis(nav)) - 1 else f.Lo(Axis(nav))
  }

  lemma CellsAtEdge(f: Rect, area: Rect, nav: NavDirection)
    requires f.Within(area) && f.width > 0 && f.height > 0 && Edge(f, nav) != Edge(area, nav)
    ensures var (axis, start) := (Axis(nav), f.Lo(Other(Axis(nav))));
            && CoversCell(area, axis, PastEdge(f, nav), start) && !CoversCell(f, axis, PastEdge(f, nav), start)
            && CoversCell(area, axis, LastCell(f, nav), start) && CoversCell(f, axis, LastCell(f, nav), start)
    ensures Forward(nav) || f.Lo(Axis(nav)) > 0
  {
    var (axis, across) := (Axis(nav), Other(Axis(nav)));
    assert area.Lo(axis) <= f.Lo(axis) && f.Hi(axis) <= area.Hi(axis);
    assert area.Lo(across) <= f.Lo(across) && f.Hi(across) <= area.Hi(across);
  }

  /** The pane that covers the cell just past the focused edge does not cover the one before it. */
  lemma PanePastEdge(node: Node, area: Rect, k: nat, nav: NavDirection, focus: nat) returns (i: nat)
    requires Unique(node) && UnitRatios(node) && k < |Panes(node, area, focus)|
    requires var f := Panes(node, area, focus)[k].rect;
             f.width > 0 && f.height > 0 && Edge(f, nav) != Edge(area, nav)
    ensures i < |Panes(node, area, focus)| && i != k
    ensures var (r, f) := (Panes(node, area, focus)[i].rect, Panes(node, area, focus)[k].rect);
            var (axis, start) := (Axis(nav), f.Lo(Other(Axis(nav))));
            && (Forward(nav) || f.Lo(axis) > 0)
            && CoversCell(r, axis, PastEdge(f, nav), start) && !CoversCell(r, axis, LastCell(f, nav), start)
  {
    hide Panes, PaneRect, UnitRatios, Unique, PastEdge, LastCell, Edge;
    var panes := Panes(node, area, focus);
    var f := panes[k].rect;
    var (axis, start) := (Axis(nav), f.Lo(Other(Axis(nav))));
    PanesArePaneRects(node, area, focus, k);
    PaneRectWithin(node, area, panes[k].id);
    CellsAtEdge(f, area, nav);
    UnitRatiosFit(node, area);
    i := PaneAt(node, area, focus, CellX(axis, PastEdge(f, nav), start), CellY(axis, PastEdge(f, nav), start));
    var own := PaneAt(node, area, focus, CellX(axis, LastCell(f, nav), start), CellY(axis, LastCell(f, nav), start));
    assert own == k;
  }

  lemma NeighbourExists(node: Node, area: Rect, k: nat, nav: NavDirection, focus: nat) returns (i: nat)
    requires Unique(node) && UnitRatios(node) && area.Fits()
    requires k < |Panes(node, area, focus)|
    requires var f := Panes(node, area, focus)[k].rect;
             f.width > 0 && f.height > 0 && Edge(f, nav) != Edge(area, nav)
    ensures var panes := Panes(node, area, focus);
            var (r, f) := (if i < |panes| then panes[i].rect else area, panes[k].rect);
            && i < |panes| && i != k && IsTarget(panes[i], panes[k], nav)
            && Gap(r, f, nav) == 0 && OverlapAmount(r, f, Other(Axis(nav))) >= 1
  {
    i := PanePastEdge(node, area, k, nav, focus);
    hide Panes, PaneRect, UnitRatios, Unique;
    var panes := Panes(node, area, focus);
    NeighbourTouches(panes[k].rect, panes[i].rect, nav);
    PanesArePaneRects(node, area, focus, i);
    PaneRectWithin(node, area, panes[i].id);
    WithinFits(panes[i].rect, area);
    PanesArePaneRects(node, area, focus, k);
    PaneRectWithin(node, area, panes[k].id);
    WithinFits(panes[k].rect, area);
    DistinctPanes(node, area, focus, i, k);
    TouchingIsTarget(panes[i], panes[k], nav);
  }

  /** A pane that starts at the focused edge and shares its first row (or column) is a target. */
  lemma TouchingIsTarget(p: PaneInfo, focused: PaneInfo, nav: NavDirection)
    requires var (r, f, axis, across) := (p.rect, focused.rect, Axis(nav), Other(Axis(nav)));
             && p.id != focused.id && r.Fits() && f.Fits() && f.Length(across) > 0
             && (if Forward(nav) then r.Lo(axis) == f.Hi(axis) else r.Hi(axis) == f.Lo(axis))
             && r.Lo(across) <= f.Lo(across) < r.Hi(across)
    ensures IsTarget(p, focused, nav) && Gap(p.rect, focused.rect, nav) == 0
    ensures OverlapAmount(p.rect, focused.rect, Other(Axis(nav))) >= 1
  {
    var across := Other(Axis(nav));
    assert p.rect.Hi(across) <= U16_MAX && focused.rect.Hi(across) <= U16_MAX;
  }

  lemma DistinctPanes(node: Node, area: Rect, focus: nat, i: nat, k: nat)
    requires Unique(node) && i < |Panes(node, area, focus)| && k < |Panes(node, area, focus)| && i != k
    ensures Panes(node, area, focus)[i].id != Panes(node, area, focus)[k].id
  {
    UniqueIsDistinct(node);
    PanesFollowIds(node, area, focus);
  }

  /** From a nonempty pane with room beyond it, navigation lands on a pane that touches its edge. */
  lemma NavigationFindsNeighbour(node: Node, area: Rect, k: nat, nav: NavDirection, focus: nat)
    requires Unique(node) && UnitRatios(node) && area.Fits()
    requires k < |Panes(node, area, focus)|
    requires var f := Panes(node, area, focus)[k].rect;
             f.width > 0 && f.height > 0 && Edge(f, nav) != Edge(area, nav)
    ensures var panes := Panes(node, area, focus);
            var found := FindInDirection(panes[k], nav, panes);
            && found.Some? && found.value in IdSet(node) && found.value != panes[k].id
            && Touches(PaneRect(node, area, found.value), panes[k].rect, nav)
  {
    hide SplitRect, Panes, PaneRect;
    var panes := Panes(node, area, focus);
    var i := NeighbourExists(node, area, k, nav, focus);
    var best := BestTarget(panes[k], nav, panes, |panes|);
    assert !Better(panes[i], i, panes[best.value], best.value, panes[k].rect, nav);
    PanesArePaneRects(node, area, focus, best.value);
    BestTouches(panes[best.value], panes[k], nav);
  }

  lemma BestTouches(p: PaneInfo, focused: PaneInfo, nav: NavDirection)
    requires IsTarget(p, focused, nav)
    requires Gap(p.rect, focused.rect, nav) == 0 && OverlapAmount(p.rect, focused.rect, Other(Axis(nav))) >= 1
    ensures Touches(p.rect, focused.rect, nav)
  {
  }

  function Smaller(a: int, b: int): int { if a < b then a else b }
  function Larger(a: int, b: int): int { if a < b then b else a }
  function Difference(a: int, b: int): nat { if a < b then b - a else a - b }

  /** The rows (or columns) two panes have in common along their shared edge. */
  function SharedCells(r: Rect, f: Rect, nav: NavDirection): int {
    if nav.Left? || nav.Right?
    then Smaller(r.y + r.height, f.y + f.height) - Larger(r.y, f.y)
    else Smaller(r.x + r.width, f.x + f.width) - Larger(r.x, f.x)
  }

  /** How far apart their centres are, in half cells; doubled coordinates stop at 65535. */
  function CentersApart(r: Rect, f: Rect, nav: NavDirection): nat {
    if nav.Left? || nav.Right?
    then Difference(Smaller(2 * r.y + r.height, 65535), Smaller(2 * f.y + f.height, 65535))
    else Difference(Smaller(2 * r.x + r.width, 65535), Smaller(2 * f.x + f.width, 65535))
  }

  /** Pane `i` comes before pane `j`: more cells shared, then nearer centres, then earlier in the list. */
  predicate Preferred(r: Rect, i: nat, other: Rect, j: nat, f: Rect, nav: NavDirection) {
    || SharedCells(r, f, nav) > SharedCells(other, f, nav)
    || (SharedCells(r, f, nav) == SharedCells(other, f, nav)
        && (CentersApart(r, f, nav) < CentersApart(other, f, nav)
            || (CentersApart(r, f, nav) == CentersApart(other, f, nav) && i < j)))
  }

  /** Of all panes that touch the focused edge, navigation takes the preferred one. */
  lemma NavigationPrefers(node: Node, area: Rect, k: nat, nav: NavDirection, focus: nat) returns (b: nat)
    requires Unique(node) && UnitRatios(node) && area.Fits()
    requires k < |Panes(node, area, focus)|
    requires var f := Panes(node, area, focus)[k].rect;
             f.width > 0 && f.height > 0 && Edge(f, nav) != Edge(area, nav)
    ensures b < |Panes(node, area, focus)|
    ensures var panes := Panes(node, area, focus);
            && FindInDirection(panes[k], nav, panes) == Some(panes[b].id)
            && Touches(panes[b].rect, panes[k].rect, nav)
            && forall i :: 0 <= i < |panes| && i != b && Touches(panes[i].rect, panes[k].rect, nav) ==>
                 Preferred(panes[b].rect, b, panes[i].rect, i, panes[k].rect, nav)
  {
    hide SplitRect, Panes, PaneRect, Better, IsTarget, Touches, Preferred, Gap, OverlapAmount;
    var panes := Panes(node, area, focus);
    var near := NeighbourExists(node, area, k, nav, focus);
    var best := BestTarget(panes[k], nav, panes, |panes|);
    b := best.value;
    NotWorseTouches(panes[b], b, panes[near], near, panes[k], nav);
    forall i | 0 <= i < |panes| && i != b && Touches(panes[i].rect, panes[k].rect, nav)
      ensures Preferred(panes[b].rect, b, panes[i].rect, i, panes[k].rect, nav)
    {
      PaneFits(node, area, focus, i);
      PaneFits(node, area, focus, b);
      PaneFits(node, area, focus, k);
      TouchingIsOther(panes[i].rect, panes[k].rect, nav);
      DistinctPanes(node, area, focus, i, k);
      TouchIsTarget(panes[i], panes[k], nav);
      BetterIsPreferred(panes[b].rect, b, panes[i].rect, i, panes[k].rect, nav, panes[b], panes[i]);
    }
  }

  lemma PaneFits(node: Node, area: Rect, focus: nat, i: nat)
    requires Unique(node) && UnitRatios(node) && area.Fits() && i < |Panes(node, area, focus)|
    ensures Panes(node, area, focus)[i].rect.Fits()
  {
    PanesArePaneRects(node, area, focus, i);
    PaneRectWithin(node, area, Panes(node, area, focus)[i].id);
    WithinFits(Panes(node, area, focus)[i].rect, area);
  }

  /** A target that is no worse than one with no gap and some overlap touches the edge itself. */
  lemma NotWorseTouches(p: PaneInfo, i: nat, q: PaneInfo, j: nat, focused: PaneInfo, nav: NavDirection)
    requires IsTarget(p, focused, nav) && !Better(q, j, p, i, focused.rect, nav)
    requires Gap(q.rect, focused.rect, nav) == 0 && OverlapAmount(q.rect, focused.rect, Other(Axis(nav))) >= 1
    ensures Touches(p.rect, focused.rect, nav)
  {
    BestTouches(p, focused, nav);
  }

  lemma TouchingIsOther(r: Rect, f: Rect, nav: NavDirection)
    requires Touches(r, f, nav) && f.width > 0 && f.height > 0
    ensures r != f
  {
  }

  lemma TouchIsTarget(p: PaneInfo, focused: PaneInfo, nav: NavDirection)
    requires Touches(p.rect, focused.rect, nav) && p.id != focused.id
    ensures IsTarget(p, focused, nav)
  {
  }

  lemma BetterIsPreferred(
    r: Rect, i: nat, other: Rect, j: nat, f: Rect, nav: NavDirection, p: PaneInfo, q: PaneInfo)
    requires p.rect == r && q.rect == other && i != j && r.Fits() && other.Fits() && f.Fits()
    requires Touches(r, f, nav) && Touches(other, f, nav) && !Better(q, j, p, i, f, nav)
    ensures Preferred(r, i, other, j, f, nav)
  {
    Measures(r, f, nav);
    Measures(other, f, nav);
    hide OverlapAmount, CenterDistance, SharedCells, CentersApart;
  }

  lemma Measures(r: Rect, f: Rect, nav: NavDirection)
    requires r.Fits() && f.Fits() && Touches(r, f, nav)
    ensures Gap(r, f, nav) == 0
    ensures OverlapAmount(r, f, Other(Axis(nav))) == SharedCells(r, f, nav)
    ensures CenterDistance(r, f, Other(Axis(nav))) == CentersApart(r, f, nav)
  {
    var across := Other(Axis(nav));
    assert r.Hi(across) <= U16_MAX && f.Hi(across) <= U16_MAX;
    OverlapOf(r, f, across);
    CentersOf(r, f, across);
    hide OverlapAmount, CenterDistance;
  }

  lemma OverlapOf(r: Rect, f: Rect, d: Direction)
    requires r.Hi(d) <= U16_MAX && f.Hi(d) <= U16_MAX
    requires r.Lo(d) < f.Hi(d) && f.Lo(d) < r.Hi(d) && r.Length(d) > 0 && f.Length(d) > 0
    ensures OverlapAmount(r, f, d) == Smaller(r.Hi(d), f.Hi(d)) - Larger(r.Lo(d), f.Lo(d))
  {
    hide Rect.Lo, Rect.Length;
  }

  lemma CentersOf(r: Rect, f: Rect, d: Direction)
    ensures CenterDistance(r, f, d)
         == Difference(Smaller(2 * r.Lo(d) + r.Length(d), 65535), Smaller(2 * f.Lo(d) + f.Length(d), 65535))
  {
    hide Rect.Lo, Rect.Length;
  }

  /** At the outer edge of the area there is nowhere to go, as long as every pane has some extent. */
  lemma NavigationStopsAtEdge(node: Node, area: Rect, k: nat, nav: NavDirection, focus: nat)
    requires Unique(node) && UnitRatios(node)
    requires k < |Panes(node, area, focus)|
    requires Edge(Panes(node, area, focus)[k].rect, nav) == Edge(area, nav)
    requires forall i :: 0 <= i < |Panes(node, area, focus)| ==> Panes(node, area, focus)[i].rect.Length(Axis(nav)) > 0
    ensures FindInDirection(Panes(node, area, focus)[k], nav, Panes(node, area, focus)).None?
  {
    hide SplitRect, Panes, PaneRect;
    var panes := Panes(node, area, focus);
    forall i | 0 <= i < |panes|
      ensures !IsTarget(panes[i], panes[k], nav)
    {
      PanesArePaneRects(node, area, focus, i);
      PaneRectWithin(node, area, panes[i].id);
      var r := panes[i].rect;
      assert area.Lo(Axis(nav)) <= r.Lo(Axis(nav)) < r.Hi(Axis(nav)) <= area.Hi(Axis(nav));
    }
  }
}
