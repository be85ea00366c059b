/**
 Keyboard resizing (src/layout.rs): which split `resize_focused` picks, and what moving it does to
 the focused pane.
 */
module LayoutResize {
  import opened Options
  import opened LayoutGeometry
  import opened LayoutTree

  datatype NavDirection = Left | Right | Up | Down

  function Axis(nav: NavDirection): Direction {
    if nav.Left? || nav.Right? then Horizontal else Vertical
  }

  predicate Forward(nav: NavDirection) {
    nav.Right? || nav.Down?
  }

  /** `opposite_direction`. */
  function Opposite(nav: NavDirection): NavDirection {
    match nav
    case Left => Right
    case Right => Left
    case Up => Down
    case Down => Up
  }

  /** `ranges_overlap`. */
  predicate RangesOverlap(aStart: nat, aLength: nat, bStart: nat, bLength: nat) {
    aStart < bStart + bLength && aStart + aLength > bStart
  }

  /** The edge of a rectangle that faces a direction. */
  function Edge(r: Rect, nav: NavDirection): nat {
    if Forward(nav) then r.Hi(Axis(nav)) else r.Lo(Axis(nav))
  }

  /** `split_edge_distance`. */
  function EdgeDistance(s: SplitBorder, focused: Rect, nav: NavDirection): nat {
    if s.pos >= Edge(focused, nav) then s.pos - Edge(focused, nav) else Edge(focused, nav) - s.pos
  }

  /** The distance is measured from the edge that the direction names. */
  lemma EdgeDistanceOf(s: SplitBorder, f: Rect, nav: NavDirection)
    ensures var edge := match nav
                        case Left => f.x
                        case Right => f.x + f.width
                        case Up => f.y
                        case Down => f.y + f.height;
            EdgeDistance(s, f, nav) == if s.pos < edge then edge - s.pos else s.pos - edge
  {
  }

  /** The three filters of `nearest_resize_split`. */
  predicate IsCandidate(s: SplitBorder, focused: Rect, nav: NavDirection) {
    var across := Other(Axis(nav));
    && s.direction == Axis(nav)
    && RangesOverlap(s.area.Lo(across), s.area.Length(across), focused.Lo(across), focused.Length(across))
    && EdgeDistance(s, focused, nav) <= 1
  }

  function Closer(a: Option<SplitBorder>, b: Option<SplitBorder>, focused: Rect, nav: NavDirection)
    : Option<SplitBorder>
  {
    if a.None? then b
    else if b.None? then a
    else if EdgeDistance(a.value, focused, nav) <= EdgeDistance(b.value, focused, nav) then a
    else b
  }

  function AsCandidate(s: SplitBorder, focused: Rect, nav: NavDirection): Option<SplitBorder> {
    if IsCandidate(s, focused, nav) then Some(s) else None
  }

  /** `nearest_resize_split`: the first candidate of least distance. */
  function Nearest(splits: seq<SplitBorder>, focused: Rect, nav: NavDirection): (r: Option<SplitBorder>)
    ensures r.Some? ==> r.value in splits && IsCandidate(r.value, focused, nav)
    ensures forall s :: s in splits && IsCandidate(s, focused, nav) ==>
              r.Some? && EdgeDistance(r.value, focused, nav) <= EdgeDistance(s, focused, nav)
  {
    if splits == [] then None
    else Closer(AsCandidate(splits[0], focused, nav), Nearest(splits[1..], focused, nav), focused, nav)
  }

  /** Among candidates at the same distance the first in preorder wins. */
  lemma {:induction false} NearestIsFirst(splits: seq<SplitBorder>, focused: Rect, nav: NavDirection) returns (k: nat)
    requires Nearest(splits, focused, nav).Some?
    ensures k < |splits| && splits[k] == Nearest(splits, focused, nav).value
    ensures forall j :: 0 <= j < k && IsCandidate(splits[j], focused, nav) ==>
              EdgeDistance(splits[k], focused, nav) < EdgeDistance(splits[j], focused, nav)
  {
    if AsCandidate(splits[0], focused, nav) == Nearest(splits, focused, nav) {
      k := 0;
    } else {
      var rest := NearestIsFirst(splits[1..], focused, nav);
      k := rest + 1;
      assert forall j :: 1 <= j <= k ==> splits[j] == splits[1..][j - 1];
    }
  }

  lemma {:induction false} NearestConcat(a: seq<SplitBorder>, b: seq<SplitBorder>, focused: Rect, nav: NavDirection)
    ensures Nearest(a + b, focused, nav) == Closer(Nearest(a, focused, nav), Nearest(b, focused, nav), focused, nav)
  {
    if a == [] {
      assert a + b == b;
    } else {
      assert (a + b)[1..] == a[1..] + b;
      NearestConcat(a[1..], b, focused, nav);
    }
  }

  /** The split `resize_focused` adjusts: towards the requested edge, else the opposite one. */
  function SelectedSplit(node: Node, area: Rect, focused: Rect, nav: NavDirection): Option<SplitBorder> {
    var splits := Splits(node, area, []);
    match Nearest(splits, focused, nav)
    case Some(s) => Some(s)
    case None => Nearest(splits, focused, Opposite(nav))
  }

  /** `resize_focused` on the tree. */
  function ResizedTree(node: Node, area: Rect, focused: Rect, nav: NavDirection, delta: Float): Node {
    match SelectedSplit(node, area, focused, nav)
    case None => node
    case Some(s) =>
      var current := if RatioAt(node, s.path).Some? then RatioAt(node, s.path).value else Finite(0.5);
      var adjusted := Add(current, if Forward(nav) then delta else Negate(delta));
      match WithRatioAt(node, s.path, Clamp(adjusted))
      case Some(resized) => resized
      case None => node
  }

  // --- Ancestors of the focused pane ---

  /** Some split on the axis has the pane on the side whose far edge that split moves. */
  predicate HasInnerEdge(node: Node, id: nat, nav: NavDirection) {
    node.Split? &&
    if id in IdSet(node.first)
    then (node.direction == Axis(nav) && Forward(nav)) || HasInnerEdge(node.first, id, nav)
    else (node.direction == Axis(nav) && !Forward(nav)) || HasInnerEdge(node.second, id, nav)
  }

  predicate HasAxisAncestor(node: Node, id: nat, axis: Direction) {
    node.Split? &&
    (node.direction == axis || HasAxisAncestor(if id in IdSet(node.first) then node.first else node.second, id, axis))
  }

  lemma {:induction false} AxisAncestorIsSomeInnerEdge(node: Node, id: nat, nav: NavDirection)
    ensures HasAxisAncestor(node, id, Axis(nav)) <==>
              HasInnerEdge(node, id, nav) || HasInnerEdge(node, id, Opposite(nav))
  {
    if node.Split? {
      AxisAncestorIsSomeInnerEdge(if id in IdSet(node.first) then node.first else node.second, id, nav);
    }
  }

  /** The split at `q` is on the axis and contains the pane, on the side given by `inFirst`. */
  ghost predicate Separates(
    node: Node, id: nat, focused: Rect, s: SplitBorder, q: seq<bool>, nav: NavDirection, inFirst: bool)
  {
    && IsSplitPath(node, q)
    && DirectionAt(node, q) == Some(Axis(nav))
    && RatioAt(node, q) == Some(s.ratio)
    && id in IdsBelow(node, q)
    && id in IdsBelow(node, q + [!inFirst])
    && (if inFirst then focused.Hi(Axis(nav)) <= s.pos else s.pos <= focused.Lo(Axis(nav)))
    && (inFirst == Forward(nav) ==> HasInnerEdge(node, id, nav))
    && (inFirst != Forward(nav) ==> HasInnerEdge(node, id, Opposite(nav)))
  }

  lemma {:induction false} SplitsInside(node: Node, area: Rect, path: seq<bool>)
    requires UnitRatios(node)
    ensures forall s :: s in Splits(node, area, path) ==>
              s.area.Within(area) && area.Lo(s.direction) <= s.pos <= area.Hi(s.direction)
  {
    if node.Split? {
      SplitRectParts(area, node.direction, node.ratio);
      var (a, b) := SplitRect(area, node.direction, node.ratio);
      SplitsInside(node.first, a, path + [false]);
      SplitsInside(node.second, b, path + [true]);
      forall s | s in Splits(node, area, path)
        ensures s.area.Within(area) && area.Lo(s.direction) <= s.pos <= area.Hi(s.direction)
      {
        if s in Splits(node.first, a, path + [false]) {
          WithinTransitive(s.area, a, area);
          assert area.Lo(s.direction) <= a.Lo(s.direction) && a.Hi(s.direction) <= area.Hi(s.direction);
        } else if s in Splits(node.second, b, path + [true]) {
          WithinTransitive(s.area, b, area);
          assert area.Lo(s.direction) <= b.Lo(s.direction) && b.Hi(s.direction) <= area.Hi(s.direction);
        }
      }
    }
  }

  /** A border separates the panes of its two sides, all of which lie in its area. */
  lemma {:induction false} BorderSeparatesSides(node: Node, area: Rect, path: seq<bool>, q: seq<bool>, s: SplitBorder,
                                                id: nat)
    requires Unique(node) && UnitRatios(node) && IsSplitPath(node, q) && id in IdsBelow(node, q)
    requires s in Splits(node, area, path) && s.path == path + q
    ensures id in IdSet(node) && PaneRect(node, area, id).Within(s.area)
    ensures var r := PaneRect(node, area, id);
            && (id in IdsBelow(node, q + [false]) ==> r.Hi(s.direction) <= s.pos)
            && (id in IdsBelow(node, q + [true]) ==> s.pos <= r.Lo(s.direction))
  {
    hide FirstLength;
    IdsBelowInside(node, q, id);
    ListedBelow(node, area, path, q, s);
    if q == [] {
      SplitPathPrefix(node.first, SplitRect(area, node.direction, node.ratio).0, path + [false]);
      SplitPathPrefix(node.second, SplitRect(area, node.direction, node.ratio).1, path + [true]);
      ChildIds(node, q);
      PaneRectWithin(node, area, id);
      PaneInItsPart(node, area, id);
    } else {
      var (a, b) := SplitRect(area, node.direction, node.ratio);
      var (child, part) := if q[0] then (node.second, b) else (node.first, a);
      assert forall c: bool :: (q + [c])[0] == q[0] && (q + [c])[1..] == q[1..] + [c];
      BorderSeparatesSides(child, part, path + [q[0]], q[1..], s, id);
    }
  }

  /** A split listed at a longer path is listed for the child it lies in; at the path itself it is the root. */
  lemma ListedBelow(node: Node, area: Rect, path: seq<bool>, q: seq<bool>, s: SplitBorder)
    requires node.Split? && s in Splits(node, area, path) && s.path == path + q
    ensures q == [] ==> s.area == area
    ensures q != [] ==>
              var (a, b) := SplitRect(area, node.direction, node.ratio);
              var (child, part) := if q[0] then (node.second, b) else (node.first, a);
              s in Splits(child, part, path + [q[0]]) && s.path == path + [q[0]] + q[1..]
  {
    hide SplitRect, Splits;
    var (a, b) := SplitRect(area, node.direction, node.ratio);
    SplitPathPrefix(node.first, a, path + [false]);
    SplitPathPrefix(node.second, b, path + [true]);
    ListedCases(node, area, path, s);
    if s in Splits(node.first, a, path + [false]) {
      NextStep(path, q, false);
    } else if s in Splits(node.second, b, path + [true]) {
      NextStep(path, q, true);
    } else {
      assert |q| == 0;
    }
  }

  lemma ListedCases(node: Node, area: Rect, path: seq<bool>, s: SplitBorder)
    requires node.Split? && s in Splits(node, area, path)
    ensures var (a, b) := SplitRect(area, node.direction, node.ratio);
            || s == Root(node, area, path)
            || s in Splits(node.first, a, path + [false])
            || s in Splits(node.second, b, path + [true])
  {
    hide SplitRect;
  }

  lemma NextStep(path: seq<bool>, q: seq<bool>, c: bool)
    requires path + [c] <= path + q
    ensures q != [] && q[0] == c && path + q == path + [c] + q[1..]
  {
    assert (path + q)[|path|] == (path + [c])[|path|];
  }

  /** A cell belongs to a pane below the path. */
  ghost predicate Holds(node: Node, area: Rect, q: seq<bool>, x: int, y: int) {
    exists id :: id in IdsBelow(node, q) && id in IdSet(node) && PaneRect(node, area, id).Covers(x, y)
  }

  lemma HoldsInChild(node: Node, area: Rect, q: seq<bool>, x: int, y: int)
    requires node.Split? && Unique(node) && q != []
    ensures var (a, b) := SplitRect(area, node.direction, node.ratio);
            var (child, part) := if q[0] then (node.second, b) else (node.first, a);
            Holds(node, area, q, x, y) <==> Holds(child, part, q[1..], x, y)
  {
    hide SplitRect, Rect.Covers;
    var (a, b) := SplitRect(area, node.direction, node.ratio);
    var (child, part) := if q[0] then (node.second, b) else (node.first, a);
    forall id | id in IdsBelow(node, q)
      ensures id in IdSet(node) && id in IdSet(child) && PaneRect(node, area, id) == PaneRect(child, part, id)
    {
      IdsBelowInside(node, q, id);
    }
  }

  /** The area of a listed split is exactly the room of the panes below it. */
  lemma {:induction false} SplitAreaIsItsPanes(
    node: Node, area: Rect, path: seq<bool>, q: seq<bool>, s: SplitBorder, x: int, y: int)
    requires Unique(node) && UnitRatios(node) && IsSplitPath(node, q)
    requires s in Splits(node, area, path) && s.path == path + q
    ensures s.area.Covers(x, y) <==> Holds(node, area, q, x, y)
  {
    hide SplitRect, Rect.Covers, Splits, Holds, IdSet;
    ListedBelow(node, area, path, q, s);
    if q == [] {
      AreaIsItsPanes(node, area, x, y);
    } else {
      var (a, b) := SplitRect(area, node.direction, node.ratio);
      var (child, part) := if q[0] then (node.second, b) else (node.first, a);
      SplitAreaIsItsPanes(child, part, path + [q[0]], q[1..], s, x, y);
      HoldsInChild(node, area, q, x, y);
    }
  }

  lemma AreaIsItsPanes(node: Node, area: Rect, x: int, y: int)
    requires Unique(node) && UnitRatios(node)
    ensures area.Covers(x, y) <==> Holds(node, area, [], x, y)
  {
    hide Panes, PaneRect, Rect.Covers, Rect.Within;
    assert IdsBelow(node, []) == IdSet(node);
    if area.Covers(x, y) {
      UnitRatiosFit(node, area);
      var i := PaneAt(node, area, 0, x, y);
      PanesArePaneRects(node, area, 0, i);
    }
    forall id | id in IdSet(node) && PaneRect(node, area, id).Covers(x, y)
      ensures area.Covers(x, y)
    {
      PaneRectWithin(node, area, id);
      CoversOuter(PaneRect(node, area, id), area, x, y);
    }
  }

  lemma ChildIds(node: Node, q: seq<bool>)
    requires node.Split? && q == []
    ensures IdsBelow(node, q + [false]) == IdSet(node.first) && IdsBelow(node, q + [true]) == IdSet(node.second)
  {
    assert forall c: bool :: (q + [c])[0] == c && (q + [c])[1..] == [];
    assert IdsBelow(node.first, []) == IdSet(node.first) && IdsBelow(node.second, []) == IdSet(node.second);
  }

  lemma PaneInItsPart(node: Node, area: Rect, id: nat)
    requires node.Split? && Unique(node) && UnitRatios(node) && id in IdSet(node)
    ensures var (a, b) := SplitRect(area, node.direction, node.ratio);
            var r := PaneRect(node, area, id);
            && (id in IdSet(node.first) ==> r.Hi(node.direction) <= a.Hi(node.direction))
            && (id in IdSet(node.second) ==> a.Hi(node.direction) <= r.Lo(node.direction))
  {
    hide FirstLength;
    SplitRectParts(area, node.direction, node.ratio);
    var (a, b) := SplitRect(area, node.direction, node.ratio);
    if id in IdSet(node.first) {
      PaneRectWithin(node.first, a, id);
    } else {
      PaneRectWithin(node.second, b, id);
    }
  }

  function Root(node: Node, area: Rect, path: seq<bool>): SplitBorder
    requires node.Split?
  {
    var a := SplitRect(area, node.direction, node.ratio).0;
    SplitBorder(a.Hi(node.direction), node.direction, node.ratio, area, path)
  }

  /**
   A candidate in the other branch loses to the split that divides the branches: that split is then
   on the axis, overlaps the pane too, and lies between the pane's edge and the candidate.
   */
  lemma BranchPointIsNearer(node: Node, area: Rect, path: seq<bool>, inFirst: bool, focused: Rect, nav: NavDirection,
                            s: SplitBorder)
    requires node.Split? && Unit(node.ratio)
    requires var (a, b) := SplitRect(area, node.direction, node.ratio);
             && focused.Within(if inFirst then a else b)
             && s.area.Within(if inFirst then b else a)
             && (if inFirst then b else a).Lo(s.direction) <= s.pos <= (if inFirst then b else a).Hi(s.direction)
    requires IsCandidate(s, focused, nav)
    ensures IsCandidate(Root(node, area, path), focused, nav)
    ensures EdgeDistance(Root(node, area, path), focused, nav) <= EdgeDistance(s, focused, nav)
  {
    hide FirstLength;
    SplitRectParts(area, node.direction, node.ratio);
    var (a, b) := SplitRect(area, node.direction, node.ratio);
    var (mine, theirs) := if inFirst then (a, b) else (b, a);
    var axis := Axis(nav);
    var across := Other(axis);
    assert mine.Lo(across) <= focused.Lo(across) && focused.Hi(across) <= mine.Hi(across);
    assert mine.Lo(axis) <= focused.Lo(axis) && focused.Hi(axis) <= mine.Hi(axis);
    assert theirs.Lo(across) <= s.area.Lo(across) && s.area.Hi(across) <= theirs.Hi(across);
    assert node.direction == axis || node.direction == across;
  }

  lemma LiftSeparates(node: Node, id: nat, focused: Rect, s: SplitBorder, q: seq<bool>, nav: NavDirection,
                      inFirst: bool, second: bool)
    requires node.Split? && Unique(node)
    requires id in IdSet(if second then node.second else node.first)
    requires Separates(if second then node.second else node.first, id, focused, s, q, nav, inFirst)
    ensures Separates(node, id, focused, s, [second] + q, nav, inFirst)
  {
    assert ([second] + q)[1..] == q;
    assert ([second] + q + [!inFirst])[1..] == q + [!inFirst];
  }

  /** The nearest split of a tree is its root or the nearest one in the focused pane's own branch. */
  lemma NearestStaysInBranch(node: Node, area: Rect, path: seq<bool>, id: nat, nav: NavDirection)
    requires node.Split? && Unique(node) && UnitRatios(node) && id in IdSet(node)
    ensures var (a, b) := SplitRect(area, node.direction, node.ratio);
            var focused := PaneRect(node, area, id);
            var nearest := Nearest(Splits(node, area, path), focused, nav);
            || nearest == AsCandidate(Root(node, area, path), focused, nav)
            || nearest == if id in IdSet(node.first)
                          then Nearest(Splits(node.first, a, path + [false]), focused, nav)
                          else Nearest(Splits(node.second, b, path + [true]), focused, nav)
  {
    hide FirstLength;
    var (a, b) := SplitRect(area, node.direction, node.ratio);
    var focused := PaneRect(node, area, id);
    var inFirst := id in IdSet(node.first);
    NearestInTree(node, area, path, focused, nav);
    if inFirst {
      PaneRectWithin(node.first, a, id);
      SplitsInside(node.second, b, path + [true]);
      var other := Nearest(Splits(node.second, b, path + [true]), focused, nav);
      if other.Some? {
        BranchPointIsNearer(node, area, path, true, focused, nav, other.value);
      }
    } else {
      PaneRectWithin(node.second, b, id);
      SplitsInside(node.first, a, path + [false]);
      var other := Nearest(Splits(node.first, a, path + [false]), focused, nav);
      if other.Some? {
        BranchPointIsNearer(node, area, path, false, focused, nav, other.value);
      }
    }
  }

  /** Whatever split is nearest, it is an ancestor of the focused pane on the requested axis. */
  lemma {:induction false} NearestIsAncestor(node: Node, area: Rect, path: seq<bool>, id: nat, nav: NavDirection)
    returns (q: seq<bool>, inFirst: bool)
    requires Unique(node) && UnitRatios(node) && id in IdSet(node)
    ensures var focused := PaneRect(node, area, id);
            var nearest := Nearest(Splits(node, area, path), focused, nav);
            nearest.Some? ==>
              nearest.value.path == path + q && Separates(node, id, focused, nearest.value, q, nav, inFirst)
  {
    hide SplitRect, Nearest, IsCandidate, Separates;
    q, inFirst := [], true;
    if node.Split? {
      var (a, b) := SplitRect(area, node.direction, node.ratio);
      var focused := PaneRect(node, area, id);
      inFirst := id in IdSet(node.first);
      var (child, part) := if inFirst then (node.first, a) else (node.second, b);
      NearestStaysInBranch(node, area, path, id, nav);
      var nearest := Nearest(Splits(node, area, path), focused, nav);
      if nearest.Some? {
        if nearest == AsCandidate(Root(node, area, path), focused, nav) {
          PaneRectWithin(child, part, id);
          RootSeparates(node, area, path, id, focused, nav, inFirst);
          assert path + [] == path;
        } else {
          var second := !inFirst;
          var inner, side := NearestIsAncestor(child, part, path + [second], id, nav);
          LiftSeparates(node, id, focused, nearest.value, inner, nav, side, second);
          q, inFirst := [second] + inner, side;
          assert path + q == path + [second] + inner;
        }
      }
    }
  }

  lemma NearestAfterRoot(root: SplitBorder, rest: seq<SplitBorder>, focused: Rect, nav: NavDirection)
    ensures Nearest([root] + rest, focused, nav)
         == Closer(AsCandidate(root, focused, nav), Nearest(rest, focused, nav), focused, nav)
  {
    hide IsCandidate;
    assert ([root] + rest)[1..] == rest;
  }

  lemma NearestInTree(node: Node, area: Rect, path: seq<bool>, focused: Rect, nav: NavDirection)
    requires node.Split?
    ensures var (a, b) := SplitRect(area, node.direction, node.ratio);
            Nearest(Splits(node, area, path), focused, nav)
              == Closer(AsCandidate(Root(node, area, path), focused, nav),
                        Closer(Nearest(Splits(node.first, a, path + [false]), focused, nav),
                               Nearest(Splits(node.second, b, path + [true]), focused, nav),
                               focused, nav),
                        focused, nav)
  {
    hide Nearest, SplitRect, IsCandidate;
    var (a, b) := SplitRect(area, node.direction, node.ratio);
    var firsts := Splits(node.first, a, path + [false]);
    var seconds := Splits(node.second, b, path + [true]);
    NearestConcat(firsts, seconds, focused, nav);
    NearestAfterRoot(Root(node, area, path), firsts + seconds, focused, nav);
    assert Splits(node, area, path) == [Root(node, area, path)] + (firsts + seconds);
  }

  lemma RootSeparates(node: Node, area: Rect, path: seq<bool>, id: nat, focused: Rect, nav: NavDirection, inFirst: bool)
    requires node.Split? && Unique(node) && Unit(node.ratio) && id in IdSet(node)
    requires inFirst == (id in IdSet(node.first)) && AsCandidate(Root(node, area, path), focused, nav).Some?
    requires var (a, b) := SplitRect(area, node.direction, node.ratio);
             focused.Within(if inFirst then a else b)
    ensures Separates(node, id, focused, Root(node, area, path), [], nav, inFirst)
  {
    SplitRectParts(area, node.direction, node.ratio);
    var (a, b) := SplitRect(area, node.direction, node.ratio);
    var mine := if inFirst then a else b;
    assert mine.Lo(Axis(nav)) <= focused.Lo(Axis(nav)) && focused.Hi(Axis(nav)) <= mine.Hi(Axis(nav));
    assert ([] + [!inFirst])[0] == !inFirst;
    assert ([] + [!inFirst])[1..] == [];
  }

  /** An inner edge is met exactly by some candidate. */
  lemma {:induction false} InnerEdgeCandidate(node: Node, area: Rect, path: seq<bool>, id: nat, nav: NavDirection)
    returns (s: SplitBorder)
    requires Unique(node) && UnitRatios(node) && id in IdSet(node) && HasInnerEdge(node, id, nav)
    requires PaneRect(node, area, id).Length(Other(Axis(nav))) > 0
    ensures var focused := PaneRect(node, area, id);
            s in Splits(node, area, path) && IsCandidate(s, focused, nav) && EdgeDistance(s, focused, nav) == 0
  {
    hide FirstLength;
    SplitRectParts(area, node.direction, node.ratio);
    var (a, b) := SplitRect(area, node.direction, node.ratio);
    var focused := PaneRect(node, area, id);
    var inFirst := id in IdSet(node.first);
    var (child, part) := if inFirst then (node.first, a) else (node.second, b);
    if HasInnerEdge(child, id, nav) {
      s := InnerEdgeCandidate(child, part, path + [!inFirst], id, nav);
    } else {
      s := Root(node, area, path);
      OuterEdge(child, part, id, nav);
      PaneRectWithin(child, part, id);
      var across := Other(Axis(nav));
      assert part.Lo(across) <= focused.Lo(across) && focused.Hi(across) <= part.Hi(across);
    }
  }

  /** Without an inner edge the pane reaches the edge of the area. */
  lemma {:induction false} OuterEdge(node: Node, area: Rect, id: nat, nav: NavDirection)
    requires UnitRatios(node) && id in IdSet(node) && !HasInnerEdge(node, id, nav)
    ensures Edge(PaneRect(node, area, id), nav) == Edge(area, nav)
  {
    hide FirstLength;
    if node.Split? {
      SplitRectParts(area, node.direction, node.ratio);
      var (a, b) := SplitRect(area, node.direction, node.ratio);
      if id in IdSet(node.first) {
        OuterEdge(node.first, a, id, nav);
      } else {
        OuterEdge(node.second, b, id, nav);
      }
    }
  }

  lemma InnerEdgeIsMet(node: Node, area: Rect, id: nat, nav: NavDirection)
    requires Unique(node) && UnitRatios(node) && id in IdSet(node) && HasInnerEdge(node, id, nav)
    requires PaneRect(node, area, id).Length(Other(Axis(nav))) > 0
    ensures var focused := PaneRect(node, area, id);
            var nearest := Nearest(Splits(node, area, []), focused, nav);
            nearest.Some? && EdgeDistance(nearest.value, focused, nav) == 0
  {
    var s := InnerEdgeCandidate(node, area, [], id, nav);
  }

  // --- Main results ---

  /** The selected split is an ancestor of the pane on the axis, whatever the pane's size. */
  lemma SelectedSplitIsAncestor(node: Node, area: Rect, id: nat, nav: NavDirection) returns (inFirst: bool)
    requires Unique(node) && UnitRatios(node) && id in IdSet(node)
    ensures var focused := PaneRect(node, area, id);
            var selected := SelectedSplit(node, area, focused, nav);
            selected.Some? ==> Separates(node, id, focused, selected.value, selected.value.path, nav, inFirst)
  {
    hide PaneRect, Splits, Nearest, Separates;
    var focused := PaneRect(node, area, id);
    var q, side := NearestIsAncestor(node, area, [], id, nav);
    if Nearest(Splits(node, area, []), focused, nav).Some? {
      inFirst := side;
      assert [] + q == q;
    } else {
      q, inFirst := NearestIsAncestor(node, area, [], id, Opposite(nav));
      assert [] + q == q;
      var fallback := Nearest(Splits(node, area, []), focused, Opposite(nav));
      if fallback.Some? {
        SeparatesEitherWay(node, id, focused, fallback.value, q, nav, inFirst);
      }
    }
  }

  lemma SeparatesEitherWay(node: Node, id: nat, focused: Rect, s: SplitBorder, q: seq<bool>, nav: NavDirection,
                           inFirst: bool)
    requires Separates(node, id, focused, s, q, Opposite(nav), inFirst)
    ensures Separates(node, id, focused, s, q, nav, inFirst)
  {
  }

  /** For a pane with some extent across the axis, a split is selected exactly when one divides its axis. */
  lemma SplitIsSelected(node: Node, area: Rect, id: nat, nav: NavDirection)
    requires Unique(node) && UnitRatios(node) && id in IdSet(node)
    requires PaneRect(node, area, id).Length(Other(Axis(nav))) > 0
    ensures SelectedSplit(node, area, PaneRect(node, area, id), nav).Some? <==> HasAxisAncestor(node, id, Axis(nav))
  {
    AxisAncestorIsSomeInnerEdge(node, id, nav);
    if HasInnerEdge(node, id, nav) {
      InnerEdgeIsMet(node, area, id, nav);
    } else if HasInnerEdge(node, id, Opposite(nav)) {
      InnerEdgeIsMet(node, area, id, Opposite(nav));
    }
    var _ := SelectedSplitIsAncestor(node, area, id, nav);
  }

  /** A split above the pane, on the axis, that strictly encloses the pane's place across the axis. */
  ghost predicate Encloses(node: Node, id: nat, focused: Rect, s: SplitBorder, nav: NavDirection) {
    var across := Other(Axis(nav));
    && s.direction == Axis(nav) && id in IdsBelow(node, s.path)
    && s.area.Lo(across) < focused.Lo(across) < s.area.Hi(across)
  }

  /** A pane squeezed to nothing across the axis needs such a split within a cell of one of its edges. */
  lemma EmptyPaneFindsSplit(node: Node, area: Rect, id: nat, nav: NavDirection)
    requires Unique(node) && UnitRatios(node) && id in IdSet(node)
    requires PaneRect(node, area, id).Length(Other(Axis(nav))) == 0
    ensures var focused := PaneRect(node, area, id);
            SelectedSplit(node, area, focused, nav).Some? <==>
              exists s :: s in Splits(node, area, []) && Encloses(node, id, focused, s, nav)
                          && (EdgeDistance(s, focused, nav) <= 1 || EdgeDistance(s, focused, Opposite(nav)) <= 1)
  {
    hide PaneRect, Splits, SelectedSplit, IsCandidate, Encloses, EdgeDistance;
    var focused := PaneRect(node, area, id);
    var selected := SelectedSplit(node, area, focused, nav);
    SelectionIsCandidate(node, area, focused, nav);
    var _ := SelectedSplitIsAncestor(node, area, id, nav);
    if selected.Some? {
      EnclosingIsCandidate(node, id, focused, selected.value, nav);
    }
    forall s | s in Splits(node, area, []) && Encloses(node, id, focused, s, nav)
      ensures EdgeDistance(s, focused, nav) <= 1 ==> selected.Some?
      ensures EdgeDistance(s, focused, Opposite(nav)) <= 1 ==> selected.Some?
    {
      EncloserIsBelow(node, id, focused, s, nav);
      EnclosingIsCandidate(node, id, focused, s, nav);
    }
  }

  /** Some split is selected exactly when one is a candidate for either direction, and it is one. */
  lemma SelectionIsCandidate(node: Node, area: Rect, focused: Rect, nav: NavDirection)
    ensures var selected := SelectedSplit(node, area, focused, nav);
            selected.Some? ==>
              && selected.value in Splits(node, area, [])
              && (IsCandidate(selected.value, focused, nav) || IsCandidate(selected.value, focused, Opposite(nav)))
    ensures forall s :: s in Splits(node, area, [])
                        && (IsCandidate(s, focused, nav) || IsCandidate(s, focused, Opposite(nav))) ==>
              SelectedSplit(node, area, focused, nav).Some?
  {
    hide Splits, IsCandidate;
  }

  lemma EncloserIsBelow(node: Node, id: nat, focused: Rect, s: SplitBorder, nav: NavDirection)
    requires Encloses(node, id, focused, s, nav)
    ensures id in IdsBelow(node, s.path)
  {
  }

  lemma EnclosingIsCandidate(node: Node, id: nat, focused: Rect, s: SplitBorder, nav: NavDirection)
    requires focused.Length(Other(Axis(nav))) == 0 && id in IdsBelow(node, s.path)
    ensures IsCandidate(s, focused, nav) <==> Encloses(node, id, focused, s, nav) && EdgeDistance(s, focused, nav) <= 1
    ensures IsCandidate(s, focused, Opposite(nav)) <==>
              Encloses(node, id, focused, s, nav) && EdgeDistance(s, focused, Opposite(nav)) <= 1
  {
  }

  /** The borders and the first pane of a split whose first child is itself a split of two panes. */
  lemma NestedLayout(outer: Node, area: Rect)
    requires outer.Split? && outer.first.Split?
    requires outer.first.first.Pane? && outer.first.second.Pane? && outer.second.Pane?
    ensures var part := SplitRect(area, outer.direction, outer.ratio).0;
            && outer.first.first.id in IdSet(outer)
            && PaneRect(outer, area, outer.first.first.id)
               == SplitRect(part, outer.first.direction, outer.first.ratio).0
            && |Splits(outer, area, [])| == 2
            && Splits(outer, area, [])[0].area == area && Splits(outer, area, [])[1].area == part
  {
    hide SplitRect;
    var inner := outer.first;
    var part := SplitRect(area, outer.direction, outer.ratio).0;
    assert inner.first.id in IdSet(inner.first) && inner.first.id in IdSet(inner);
    assert [] + [false] == [false];
    assert Splits(inner, part, [false]) == [Root(inner, part, [false])];
    assert PaneRect(inner, part, inner.first.id) == SplitRect(part, inner.direction, inner.ratio).0;
  }

  lemma SqueezedRow()
    ensures SplitRect(Rect(0, 0, 10, 1), Horizontal, Finite(0.5)) == (Rect(0, 0, 5, 1), Rect(5, 0, 5, 1))
    ensures SplitRect(Rect(0, 0, 5, 1), Vertical, Finite(0.1)) == (Rect(0, 0, 5, 0), Rect(0, 0, 5, 1))
  {
    assert FirstLength(10, Finite(0.5)) == 5 && FirstLength(1, Finite(0.1)) == 0;
  }

  /** A pane squeezed to nothing across the axis may find no split, although one divides its axis. */
  lemma EmptyPaneMayFindNoSplit() returns (node: Node, area: Rect, id: nat)
    ensures Unique(node) && RatiosInRange(node) && id in IdSet(node)
    ensures HasAxisAncestor(node, id, Horizontal)
    ensures SelectedSplit(node, area, PaneRect(node, area, id), Right).None?
  {
    hide PaneRect, Splits, SelectedSplit;
    area, id := Rect(0, 0, 10, 1), 1;
    node := SqueezedTree(area);
    NoOverlapNoSelection(node, area, PaneRect(node, area, 1));
  }

  lemma SqueezedTree(area: Rect) returns (node: Node)
    requires area == Rect(0, 0, 10, 1)
    ensures Unique(node) && RatiosInRange(node) && 1 in IdSet(node) && HasAxisAncestor(node, 1, Horizontal)
    ensures PaneRect(node, area, 1) == Rect(0, 0, 5, 0)
    ensures forall i :: 0 <= i < |Splits(node, area, [])| ==> Splits(node, area, [])[i].area.y == 0
  {
    hide SplitRect, PaneRect, Splits;
    var column := Split(Vertical, Finite(0.1), Pane(1), Pane(2));
    node := Split(Horizontal, Finite(0.5), column, Pane(3));
    assert Unique(column) && RatiosInRange(column) && IdSet(column) == {1, 2};
    NestedLayout(node, area);
    SqueezedRow();
  }

  lemma NoOverlapNoSelection(node: Node, area: Rect, focused: Rect)
    requires focused.y == 0 && focused.height == 0
    requires forall i :: 0 <= i < |Splits(node, area, [])| ==> Splits(node, area, [])[i].area.y == 0
    ensures SelectedSplit(node, area, focused, Right).None?
  {
  }

  lemma RootRatioMovesSides(node: Node, area: Rect, low: Float, high: Float, id: nat)
    requires node.Split? && UnitRatios(node) && area.Fits() && id in IdSet(node)
    requires InRange(low) && InRange(high) && low.value <= high.value
    ensures var before := PaneRect(node.(ratio := low), area, id);
            var after := PaneRect(node.(ratio := high), area, id);
            if id in IdSet(node.first) then after.NoSmallerThan(before) else before.NoSmallerThan(after)
  {
    hide FirstLength;
    var d := node.direction;
    SplitRectParts(area, d, low);
    SplitRectParts(area, d, high);
    FirstLengthMonotoneInRatio(area.Length(d), low, high);
    var (a, b) := SplitRect(area, d, low);
    var (a', b') := SplitRect(area, d, high);
    WithinFits(a', area);
    WithinFits(b, area);
    if id in IdSet(node.first) {
      PaneRectMonotone(node.first, a, a', id);
    } else {
      PaneRectMonotone(node.second, b', b, id);
    }
  }

  /** Raising one ratio gives the panes on its first side no less and those on its second no more. */
  lemma {:induction false} RatioMovesSides(node: Node, area: Rect, q: seq<bool>, low: Float, high: Float, id: nat)
    requires Unique(node) && UnitRatios(node) && IsSplitPath(node, q) && area.Fits()
    requires InRange(low) && InRange(high) && low.value <= high.value
    requires id in IdsBelow(node, q)
    ensures WithRatioAt(node, q, low).Some? && WithRatioAt(node, q, high).Some? && id in IdSet(node)
    ensures IdSet(WithRatioAt(node, q, low).value) == IdSet(node) == IdSet(WithRatioAt(node, q, high).value)
    ensures var before := PaneRect(WithRatioAt(node, q, low).value, area, id);
            var after := PaneRect(WithRatioAt(node, q, high).value, area, id);
            && (id in IdsBelow(node, q + [false]) ==> after.NoSmallerThan(before))
            && (id in IdsBelow(node, q + [true]) ==> before.NoSmallerThan(after))
  {
    hide SplitRect, Rect.NoSmallerThan;
    WithRatioChangesOne(node, q, low, []);
    WithRatioChangesOne(node, q, high, []);
    IdsBelowInside(node, q, id);
    assert forall c: bool :: (q + [c])[0] == (if q == [] then c else q[0]);
    assert forall c: bool :: (q + [c])[1..] == (if q == [] then [] else q[1..] + [c]);
    if q == [] {
      ChildIds(node, q);
      RootRatioMovesSides(node, area, low, high, id);
    } else {
      SplitRectParts(area, node.direction, node.ratio);
      var (a, b) := SplitRect(area, node.direction, node.ratio);
      var (child, part) := if q[0] then (node.second, b) else (node.first, a);
      WithinFits(part, area);
      RatioMovesSides(child, part, q[1..], low, high, id);
    }
  }

  lemma {:induction false} IdsBelowInside(node: Node, q: seq<bool>, id: nat)
    requires id in IdsBelow(node, q)
    ensures id in IdSet(node)
    ensures q != [] ==> node.Split? && id in IdSet(if q[0] then node.second else node.first)
  {
    if q != [] {
      IdsBelowInside(if q[0] then node.second else node.first, q[1..], id);
    }
  }

  lemma {:induction false} WithOwnRatio(node: Node, q: seq<bool>)
    requires IsSplitPath(node, q) && RatiosInRange(node)
    ensures RatioAt(node, q).Some? && InRange(RatioAt(node, q).value)
    ensures WithRatioAt(node, q, RatioAt(node, q).value) == Some(node)
  {
    if q != [] {
      WithOwnRatio(if q[0] then node.second else node.first, q[1..]);
    }
  }

  /**
   Resizing towards an inner edge moves that edge: a nonnegative delta never shrinks a nonempty pane,
   and a nonpositive one never grows it. Without an inner edge that way, it is the reverse.
   */
  lemma ResizeMovesRequestedEdge(node: Node, area: Rect, id: nat, nav: NavDirection, delta: real)
    requires Unique(node) && RatiosInRange(node) && area.Fits() && id in IdSet(node)
    requires PaneRect(node, area, id).width > 0 && PaneRect(node, area, id).height > 0
    ensures var before := PaneRect(node, area, id);
            var resized := ResizedTree(node, area, before, nav, Finite(delta));
            && id in IdSet(resized)
            && var after := PaneRect(resized, area, id);
               if HasInnerEdge(node, id, nav) <==> delta >= 0.0
               then after.NoSmallerThan(before)
               else before.NoSmallerThan(after)
  {
    hide PaneRect, SelectedSplit, ResizedTree, Rect.NoSmallerThan;
    InRangeIsUnit(node);
    var focused := PaneRect(node, area, id);
    var inFirst := SelectedSplitIsAncestor(node, area, id, nav);
    var selected := SelectedSplit(node, area, focused, nav);
    if selected.Some? {
      SelectedSide(node, area, id, nav, inFirst);
      var step := if Forward(nav) then delta else -delta;
      RatioStepMovesPane(node, area, selected.value.path, id, inFirst, step);
      ResizedTreeStep(node, area, focused, nav, delta, selected.value);
    } else {
      ResizedTreeUnchanged(node, area, focused, nav, Finite(delta));
      SameSize(focused);
    }
  }

  lemma ResizedTreeStep(node: Node, area: Rect, focused: Rect, nav: NavDirection, delta: real, s: SplitBorder)
    requires SelectedSplit(node, area, focused, nav) == Some(s) && RatioAt(node, s.path).Some?
    requires var step := if Forward(nav) then delta else -delta;
             WithRatioAt(node, s.path, Clamp(Add(RatioAt(node, s.path).value, Finite(step)))).Some?
    ensures var step := if Forward(nav) then delta else -delta;
            ResizedTree(node, area, focused, nav, Finite(delta))
              == WithRatioAt(node, s.path, Clamp(Add(RatioAt(node, s.path).value, Finite(step)))).value
  {
    hide SelectedSplit, RatioAt, WithRatioAt;
  }

  lemma ResizedTreeUnchanged(node: Node, area: Rect, focused: Rect, nav: NavDirection, delta: Float)
    requires SelectedSplit(node, area, focused, nav).None?
    ensures ResizedTree(node, area, focused, nav, delta) == node
  {
  }

  lemma SameSize(r: Rect)
    ensures r.NoSmallerThan(r)
  {
  }

  /** One step of one ratio: the side it favours does not shrink, the other does not grow. */
  lemma RatioStepMovesPane(node: Node, area: Rect, q: seq<bool>, id: nat, inFirst: bool, step: real)
    requires Unique(node) && RatiosInRange(node) && area.Fits() && IsSplitPath(node, q)
    requires id in IdsBelow(node, q) && id in IdsBelow(node, q + [!inFirst])
    ensures id in IdSet(node) && RatioAt(node, q).Some?
    ensures WithRatioAt(node, q, Clamp(Add(RatioAt(node, q).value, Finite(step)))).Some?
    ensures var moved := WithRatioAt(node, q, Clamp(Add(RatioAt(node, q).value, Finite(step)))).value;
            && id in IdSet(moved)
            && ((if inFirst then step >= 0.0 else step <= 0.0) ==>
                  PaneRect(moved, area, id).NoSmallerThan(PaneRect(node, area, id)))
            && ((if inFirst then step <= 0.0 else step >= 0.0) ==>
                  PaneRect(node, area, id).NoSmallerThan(PaneRect(moved, area, id)))
  {
    hide PaneRect, Rect.NoSmallerThan;
    InRangeIsUnit(node);
    WithOwnRatio(node, q);
    var current := RatioAt(node, q).value;
    var target := Clamp(Add(current, Finite(step)));
    if current.value <= target.value {
      RatioMovesSides(node, area, q, current, target, id);
    }
    if target.value <= current.value {
      RatioMovesSides(node, area, q, target, current, id);
    }
  }

  /** A nonempty pane lies on the side the direction asks for exactly when it has an inner edge there. */
  lemma SelectedSide(node: Node, area: Rect, id: nat, nav: NavDirection, inFirst: bool)
    requires Unique(node) && UnitRatios(node) && id in IdSet(node)
    requires PaneRect(node, area, id).width > 0 && PaneRect(node, area, id).height > 0
    requires var focused := PaneRect(node, area, id);
             var selected := SelectedSplit(node, area, focused, nav);
             selected.Some? && Separates(node, id, focused, selected.value, selected.value.path, nav, inFirst)
    ensures HasInnerEdge(node, id, nav) <==> inFirst == Forward(nav)
  {
    if HasInnerEdge(node, id, nav) {
      InnerEdgeIsMet(node, area, id, nav);
    }
  }
}
