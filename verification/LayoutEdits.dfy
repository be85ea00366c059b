/**
 Splitting, closing and swapping panes of the split tree (src/layout.rs), and what each edit
 does to the rectangles.
 */
module LayoutEdits {
  import opened Options
  import opened LayoutGeometry
  import opened LayoutTree

  // --- Closing ---

  /** `remove_pane`: the tree without the target, whose sibling takes the place of the split. */
  function Remove(node: Node, target: nat): Option<Node> {
    match node
    case Pane(id) => if id == target then None else Some(node)
    case Split(direction, ratio, first, second) =>
      match (Remove(first, target), Remove(second, target))
      case (None, Some(s)) => Some(s)
      case (Some(f), None) => Some(f)
      case (Some(f), Some(s)) => Some(Split(direction, ratio, f, s))
      case (None, None) => None
  }

  function Without(ids: seq<nat>, target: nat): seq<nat> {
    if ids == [] then []
    else (if ids[0] == target then [] else [ids[0]]) + Without(ids[1..], target)
  }

  lemma {:induction false} WithoutConcat(a: seq<nat>, b: seq<nat>, target: nat)
    ensures Without(a + b, target) == Without(a, target) + Without(b, target)
  {
    if a == [] {
      assert a + b == b;
    } else {
      assert (a + b)[1..] == a[1..] + b;
      WithoutConcat(a[1..], b, target);
    }
  }

  lemma {:induction false} RemoveAbsent(node: Node, target: nat)
    requires target !in IdSet(node)
    ensures Remove(node, target) == Some(node)
  {
    if node.Split? {
      RemoveAbsent(node.first, target);
      RemoveAbsent(node.second, target);
    }
  }

  /** Closing a pane drops that id, keeps the order of the others, and empties only a lone pane. */
  lemma {:induction false} RemoveKeepsOthers(node: Node, target: nat)
    requires Unique(node)
    ensures Remove(node, target).None? <==> node == Pane(target)
    ensures Remove(node, target).Some? ==>
              var rest := Remove(node, target).value;
              && IdSet(rest) == IdSet(node) - {target}
              && Unique(rest)
              && Ids(rest) == Without(Ids(node), target)
              && (RatiosInRange(node) ==> RatiosInRange(rest))
              && (UnitRatios(node) ==> UnitRatios(rest))
  {
    if node.Split? {
      RemoveKeepsOthers(node.first, target);
      RemoveKeepsOthers(node.second, target);
      WithoutConcat(Ids(node.first), Ids(node.second), target);
    }
  }

  /** The panes of the subtree next to the closed pane, which inherits its room. */
  function SiblingIds(node: Node, target: nat): set<nat> {
    if node.Pane? then {}
    else if node.first == Pane(target) then IdSet(node.second)
    else if node.second == Pane(target) then IdSet(node.first)
    else if target in IdSet(node.first) then SiblingIds(node.first, target)
    else SiblingIds(node.second, target)
  }

  /** Closing a pane shrinks no surviving pane and moves none outside the sibling subtree. */
  lemma {:induction false} ClosingShrinksNoPane(node: Node, area: Rect, target: nat, id: nat)
    requires Unique(node) && UnitRatios(node) && area.Fits()
    requires target in IdSet(node) && id in IdSet(node) && id != target
    ensures Remove(node, target).Some? && id in IdSet(Remove(node, target).value)
    ensures var rest := Remove(node, target).value;
            && PaneRect(rest, area, id).NoSmallerThan(PaneRect(node, area, id))
            && (id !in SiblingIds(node, target) ==> PaneRect(rest, area, id) == PaneRect(node, area, id))
  {
    RemoveKeepsOthers(node, target);
    var (a, b) := SplitRect(area, node.direction, node.ratio);
    SplitRectParts(area, node.direction, node.ratio);
    WithinFits(a, area);
    WithinFits(b, area);
    if node.first == Pane(target) {
      RemoveAbsent(node.second, target);
      WithinIsSmaller(b, area);
      PaneRectMonotone(node.second, b, area, id);
    } else if node.second == Pane(target) {
      RemoveAbsent(node.first, target);
      WithinIsSmaller(a, area);
      PaneRectMonotone(node.first, a, area, id);
    } else if target in IdSet(node.first) {
      RemoveAbsent(node.second, target);
      RemoveKeepsOthers(node.first, target);
      if id in IdSet(node.first) {
        ClosingShrinksNoPane(node.first, a, target, id);
      }
    } else {
      RemoveAbsent(node.first, target);
      RemoveKeepsOthers(node.second, target);
      if id in IdSet(node.second) {
        ClosingShrinksNoPane(node.second, b, target, id);
      }
    }
  }

  lemma WithinIsSmaller(inner: Rect, outer: Rect)
    requires inner.Within(outer)
    ensures outer.NoSmallerThan(inner)
  {
    forall d: Direction
      ensures inner.Length(d) <= outer.Length(d)
    {
      assert outer.Lo(d) <= inner.Lo(d) && inner.Hi(d) <= outer.Hi(d);
    }
  }

  /** Every cell of the closed pane goes to exactly one pane, in the sibling subtree. */
  lemma ClosedRoomGoesToSibling(node: Node, area: Rect, target: nat, x: int, y: int) returns (heir: nat)
    requires Unique(node) && UnitRatios(node) && area.Fits() && node.Split? && target in IdSet(node)
    requires PaneRect(node, area, target).Covers(x, y)
    ensures Remove(node, target).Some?
    ensures var rest := Remove(node, target).value;
            heir in SiblingIds(node, target) && heir in IdSet(rest) && PaneRect(rest, area, heir).Covers(x, y)
  {
    hide PaneRect, Panes, PartsFit;
    RemoveKeepsOthers(node, target);
    var rest := Remove(node, target).value;
    PaneRectWithin(node, area, target);
    CoversOuter(PaneRect(node, area, target), area, x, y);
    UnitRatiosFit(rest, area);
    var i := PaneAt(rest, area, 0, x, y);
    PanesArePaneRects(rest, area, 0, i);
    heir := Panes(rest, area, 0)[i].id;
    if heir !in SiblingIds(node, target) {
      ClosingShrinksNoPane(node, area, target, heir);
      UnitRatiosFit(node, area);
      OnePaneAt(node, area, target, heir, x, y);
      assert false;
    }
  }

  // --- Splitting ---

  /** `find_pane_mut` followed by a store: the first pane with the target id is replaced. */
  function ReplacePane(node: Node, target: nat, leaf: Node): Option<Node> {
    match node
    case Pane(id) => if id == target then Some(leaf) else None
    case Split(_, _, first, second) =>
      match ReplacePane(first, target, leaf)
      case Some(f) => Some(node.(first := f))
      case None =>
        match ReplacePane(second, target, leaf)
        case Some(s) => Some(node.(second := s))
        case None => None
  }

  /** `split_node`. */
  function SplitLeaf(target: nat, direction: Direction, newId: nat, ratio: Float): Node {
    Split(direction, ratio, Pane(target), Pane(newId))
  }

  lemma {:induction false} ReplaceFinds(node: Node, target: nat, leaf: Node)
    ensures ReplacePane(node, target, leaf).Some? <==> target in IdSet(node)
  {
    if node.Split? {
      ReplaceFinds(node.first, target, leaf);
      ReplaceFinds(node.second, target, leaf);
    }
  }

  /** Splitting adds exactly the new pane. */
  lemma {:induction false} SplitAddsPane(node: Node, target: nat, d: Direction, newId: nat, ratio: Float)
    requires target in IdSet(node)
    ensures ReplacePane(node, target, SplitLeaf(target, d, newId, ratio)).Some?
    ensures var grown := ReplacePane(node, target, SplitLeaf(target, d, newId, ratio)).value;
            && IdSet(grown) == IdSet(node) + {newId}
            && (Unique(node) && newId !in IdSet(node) ==> Unique(grown))
            && (RatiosInRange(node) && InRange(ratio) ==> RatiosInRange(grown))
  {
    if node.Split? {
      ReplaceFinds(node.first, target, SplitLeaf(target, d, newId, ratio));
      if target in IdSet(node.first) {
        SplitAddsPane(node.first, target, d, newId, ratio);
      } else {
        SplitAddsPane(node.second, target, d, newId, ratio);
      }
    }
  }

  /** Closing a freshly split pane gives back the tree it was split from. */
  lemma {:induction false} RemoveUndoesSplit(node: Node, target: nat, d: Direction, newId: nat, ratio: Float)
    requires target in IdSet(node) && newId !in IdSet(node)
    ensures ReplacePane(node, target, SplitLeaf(target, d, newId, ratio)).Some?
    ensures Remove(ReplacePane(node, target, SplitLeaf(target, d, newId, ratio)).value, newId) == Some(node)
  {
    if node.Split? {
      ReplaceFinds(node.first, target, SplitLeaf(target, d, newId, ratio));
      if target in IdSet(node.first) {
        RemoveUndoesSplit(node.first, target, d, newId, ratio);
        RemoveAbsent(node.second, newId);
      } else {
        RemoveUndoesSplit(node.second, target, d, newId, ratio);
        RemoveAbsent(node.first, newId);
      }
    }
  }

  /** `iter().position(|info| info.id == target)`. */
  function Position(panes: seq<PaneInfo>, target: nat): (r: Option<nat>)
    ensures r.Some? ==> r.value < |panes| && panes[r.value].id == target
    ensures r.Some? ==> forall j :: 0 <= j < r.value ==> panes[j].id != target
    ensures r.None? ==> forall i :: 0 <= i < |panes| ==> panes[i].id != target
  {
    if panes == [] then None
    else if panes[0].id == target then Some(0)
    else
      match Position(panes[1..], target)
      case None => None
      case Some(i) => Some(i + 1)
  }

  lemma {:induction false} PositionConcat(a: seq<PaneInfo>, b: seq<PaneInfo>, target: nat)
    ensures Position(a + b, target) ==
              match Position(a, target)
              case Some(i) => Some(i)
              case None =>
                match Position(b, target)
                case Some(i) => Some(|a| + i)
                case None => None
  {
    if a == [] {
      assert a + b == b;
    } else {
      assert (a + b)[1..] == a[1..] + b;
      PositionConcat(a[1..], b, target);
    }
  }

  /** `panes_after_split`: the predicted rectangles and the index of the new pane. */
  function PanesAfterSplit(node: Node, area: Rect, focus: nat, target: nat, d: Direction, ratio: Float)
    : Option<(seq<PaneInfo>, nat)>
  {
    var panes := Panes(node, area, focus);
    match Position(panes, target)
    case None => None
    case Some(index) =>
      var (first, second) := SplitRect(panes[index].rect, d, ValidSplitRatio(ratio));
      var resized := panes[index].(rect := first);
      var added := resized.(rect := second, isFocused := false);
      Some((Spliced(panes, index, [resized, added]), index + 1))
  }

  function Spliced(panes: seq<PaneInfo>, i: nat, entries: seq<PaneInfo>): seq<PaneInfo>
    requires i < |panes|
  {
    panes[..i] + entries + panes[i + 1..]
  }

  lemma SplicedConcat(a: seq<PaneInfo>, b: seq<PaneInfo>, i: nat, entries: seq<PaneInfo>)
    requires i < |a + b|
    ensures Spliced(a + b, i, entries)
         == if i < |a| then Spliced(a, i, entries) + b else a + Spliced(b, i - |a|, entries)
  {
    if i < |a| {
      assert (a + b)[..i] == a[..i] && (a + b)[i + 1..] == a[i + 1..] + b;
    } else {
      assert (a + b)[..i] == a + b[..i - |a|] && (a + b)[i + 1..] == b[i - |a| + 1..];
    }
  }

  lemma {:induction false} SplitReplacesEntry(node: Node, area: Rect, focus: nat, target: nat, leaf: Node)
    ensures ReplacePane(node, target, leaf).Some? <==> Position(Panes(node, area, focus), target).Some?
    ensures ReplacePane(node, target, leaf).Some? ==>
              var panes := Panes(node, area, focus);
              var i := Position(panes, target).value;
              Panes(ReplacePane(node, target, leaf).value, area, focus)
                == Spliced(panes, i, Panes(leaf, panes[i].rect, focus))
  {
    if node.Split? {
      var (a, b) := SplitRect(area, node.direction, node.ratio);
      var (firsts, seconds) := (Panes(node.first, a, focus), Panes(node.second, b, focus));
      SplitReplacesEntry(node.first, a, focus, target, leaf);
      SplitReplacesEntry(node.second, b, focus, target, leaf);
      PositionConcat(firsts, seconds, target);
      if Position(firsts + seconds, target).Some? {
        var i := Position(firsts + seconds, target).value;
        SplicedConcat(firsts, seconds, i, Panes(leaf, (firsts + seconds)[i].rect, focus));
      }
    }
  }

  /** The prediction is what splitting produces, entry by entry; only the new pane's id is unknown. */
  lemma SplitIsPredicted(node: Node, area: Rect, focus: nat, target: nat, d: Direction, ratio: Float, newId: nat)
    requires newId != focus
    ensures var grown := ReplacePane(node, target, SplitLeaf(target, d, newId, ValidSplitRatio(ratio)));
            var predicted := PanesAfterSplit(node, area, focus, target, d, ratio);
            && (grown.Some? <==> predicted.Some?)
            && (grown.Some? ==>
                  var (panes, index) := predicted.value;
                  && index < |panes| && panes[index].id == target
                  && Panes(grown.value, area, focus) == panes[index := panes[index].(id := newId)])
  {
    hide SplitRect, ReplacePane, ValidSplitRatio, Position;
    var leaf := SplitLeaf(target, d, newId, ValidSplitRatio(ratio));
    SplitReplacesEntry(node, area, focus, target, leaf);
    if ReplacePane(node, target, leaf).Some? {
      var panes := Panes(node, area, focus);
      var i := Position(panes, target).value;
      PanesFollowIds(node, area, focus);
      var (first, second) := SplitRect(panes[i].rect, d, ValidSplitRatio(ratio));
      assert Panes(leaf, panes[i].rect, focus)
          == [PaneInfo(target, first, target == focus), PaneInfo(newId, second, false)];
    }
  }

  /** In the grown tree the split leaf is laid out in the old rectangle of the target, and nothing else moves. */
  lemma {:induction false} SplitLeafTakesRect(
    node: Node, area: Rect, target: nat, d: Direction, newId: nat, ratio: Float, id: nat)
    requires Unique(node) && target in IdSet(node) && newId !in IdSet(node) && (id == newId || id in IdSet(node))
    ensures ReplacePane(node, target, SplitLeaf(target, d, newId, ratio)).Some?
    ensures var grown := ReplacePane(node, target, SplitLeaf(target, d, newId, ratio)).value;
            var old' := PaneRect(node, area, target);
            && id in IdSet(grown)
            && PaneRect(grown, area, id) == if id == target then SplitRect(old', d, ratio).0
                                            else if id == newId then SplitRect(old', d, ratio).1
                                            else PaneRect(node, area, id)
  {
    hide SplitRect;
    SplitAddsPane(node, target, d, newId, ratio);
    if node.Split? {
      var (a, b) := SplitRect(area, node.direction, node.ratio);
      ReplaceFinds(node.first, target, SplitLeaf(target, d, newId, ratio));
      if target in IdSet(node.first) {
        SplitAddsPane(node.first, target, d, newId, ratio);
        SplitLeafTakesRect(node.first, a, target, d, newId, ratio, if id in IdSet(node.second) then target else id);
      } else {
        SplitAddsPane(node.second, target, d, newId, ratio);
        SplitLeafTakesRect(node.second, b, target, d, newId, ratio, if id in IdSet(node.first) then target else id);
      }
    } else {
      LeafRects(area, target, d, newId, ratio);
    }
  }

  lemma LeafRects(area: Rect, target: nat, d: Direction, newId: nat, ratio: Float)
    requires target != newId
    ensures var leaf := SplitLeaf(target, d, newId, ratio);
            && target in IdSet(leaf) && PaneRect(leaf, area, target) == SplitRect(area, d, ratio).0
            && newId in IdSet(leaf) && PaneRect(leaf, area, newId) == SplitRect(area, d, ratio).1
  {
    hide SplitRect;
    var leaf := SplitLeaf(target, d, newId, ratio);
    assert target in IdSet(leaf.first) && newId !in IdSet(leaf.first) && newId in IdSet(leaf.second);
  }

  // --- Swapping ---

  function Exchange(id: nat, a: nat, b: nat): nat {
    if id == a then b else if id == b then a else id
  }

  /** `swap_pane_ids`. */
  function SwapIds(node: Node, a: nat, b: nat): Node {
    match node
    case Pane(id) => Pane(Exchange(id, a, b))
    case Split(direction, ratio, first, second) =>
      Split(direction, ratio, SwapIds(first, a, b), SwapIds(second, a, b))
  }

  /** Swapping relabels panes in place: no rectangle moves, and a second swap undoes the first. */
  lemma {:induction false} SwapRelabels(node: Node, a: nat, b: nat, area: Rect, focus: nat)
    ensures SwapIds(SwapIds(node, a, b), a, b) == node
    ensures |Panes(SwapIds(node, a, b), area, focus)| == |Panes(node, area, focus)|
    ensures forall i :: 0 <= i < |Panes(node, area, focus)| ==>
              var before := Panes(node, area, focus)[i];
              var id := Exchange(before.id, a, b);
              Panes(SwapIds(node, a, b), area, focus)[i] == PaneInfo(id, before.rect, id == focus)
    ensures forall id :: id in IdSet(SwapIds(node, a, b)) <==> Exchange(id, a, b) in IdSet(node)
    ensures RatiosInRange(SwapIds(node, a, b)) <==> RatiosInRange(node)
    ensures Unique(node) ==> Unique(SwapIds(node, a, b))
  {
    if node.Split? {
      var (r, s) := SplitRect(area, node.direction, node.ratio);
      SwapRelabels(node.first, a, b, r, focus);
      SwapRelabels(node.second, a, b, s, focus);
    }
  }

  /** The two swapped panes trade rectangles. */
  lemma {:induction false} SwapTradesRects(node: Node, a: nat, b: nat, area: Rect, id: nat)
    requires id in IdSet(node)
    ensures Exchange(id, a, b) in IdSet(SwapIds(node, a, b))
    ensures PaneRect(SwapIds(node, a, b), area, Exchange(id, a, b)) == PaneRect(node, area, id)
  {
    SwapRelabels(node, a, b, area, 0);
    if node.Split? {
      var (r, s) := SplitRect(area, node.direction, node.ratio);
      SwapRelabels(node.first, a, b, r, 0);
      if id in IdSet(node.first) {
        SwapTradesRects(node.first, a, b, r, id);
      } else {
        SwapTradesRects(node.second, a, b, s, id);
      }
    }
  }
}
