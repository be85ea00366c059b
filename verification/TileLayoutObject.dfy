/** `TileLayout` as an object updated in place, proved against the specification in `TileLayouts`. */
module TileLayoutObject {
  import opened Options
  import opened LayoutGeometry
  import opened LayoutTree
  import opened LayoutEdits
  import opened LayoutResize
  import opened TileLayouts

  /** The process-wide pane id counter. */
  class PaneIdAllocator {
    var next: nat

    constructor ()
      ensures next == 1
    {
      next := 1;
    }

    method Alloc() returns (id: nat)
      modifies this
      ensures id == old(next) && next == old(next) + 1
    {
      id := next;
      next := next + 1;
    }
  }

  method CollectIds(node: Node, ids: seq<nat>) returns (result: seq<nat>)
    ensures result == ids + Ids(node)
  {
    match node
    case Pane(id) =>
      result := ids + [id];
    case Split(_, _, first, second) =>
      result := CollectIds(first, ids);
      result := CollectIds(second, result);
  }

  method CollectPanes(node: Node, area: Rect, focus: nat, panes: seq<PaneInfo>) returns (result: seq<PaneInfo>)
    ensures result == panes + Panes(node, area, focus)
  {
    match node
    case Pane(id) =>
      result := panes + [PaneInfo(id, area, id == focus)];
    case Split(direction, ratio, first, second) =>
      var (a, b) := SplitRect(area, direction, ratio);
      result := CollectPanes(first, a, focus, panes);
      result := CollectPanes(second, b, focus, result);
  }

  /** The path is pushed and popped around the two children, and handed back as it came. */
  method CollectSplits(node: Node, area: Rect, path: seq<bool>, splits: seq<SplitBorder>)
    returns (result: seq<SplitBorder>, pathAfter: seq<bool>)
    ensures result == splits + Splits(node, area, path)
    ensures pathAfter == path
  {
    result, pathAfter := splits, path;
    if node.Split? {
      var (a, b) := SplitRect(area, node.direction, node.ratio);
      result := result + [SplitBorder(a.Hi(node.direction), node.direction, node.ratio, area, path)];
      pathAfter := pathAfter + [false];
      result, pathAfter := CollectSplits(node.first, a, pathAfter, result);
      pathAfter := pathAfter[..|pathAfter| - 1];
      pathAfter := pathAfter + [true];
      result, pathAfter := CollectSplits(node.second, b, pathAfter, result);
      pathAfter := pathAfter[..|pathAfter| - 1];
    }
  }

  function CountPanes(node: Node): (n: nat)
    ensures n == |Ids(node)|
  {
    match node
    case Pane(_) => 1
    case Split(_, _, first, second) => CountPanes(first) + CountPanes(second)
  }

  /** `split_ratios`, without the paths, which the shape of the tree determines. */
  function SplitRatios(node: Node): seq<Float> {
    match node
    case Pane(_) => []
    case Split(_, ratio, first, second) => [ratio] + SplitRatios(first) + SplitRatios(second)
  }

  predicate SameShape(a: Node, b: Node) {
    match (a, b)
    case (Pane(i), Pane(j)) => i == j
    case (Split(d, _, f, s), Split(d', _, f', s')) => d == d' && SameShape(f, f') && SameShape(s, s')
    case _ => false
  }

  /** Trees of one shape are told apart by their ratios. */
  lemma {:induction false} RatiosDetermineTree(a: Node, b: Node)
    requires SameShape(a, b)
    ensures |SplitRatios(a)| == |SplitRatios(b)|
    ensures SplitRatios(a) == SplitRatios(b) <==> a == b
  {
    if a.Split? {
      RatiosDetermineTree(a.first, b.first);
      RatiosDetermineTree(a.second, b.second);
      var (ra, rb) := (SplitRatios(a), SplitRatios(b));
      var n := |SplitRatios(a.first)|;
      assert ra[1..1 + n] == SplitRatios(a.first) && rb[1..1 + n] == SplitRatios(b.first);
      assert ra[1 + n..] == SplitRatios(a.second) && rb[1 + n..] == SplitRatios(b.second);
      assert ra[0] == a.ratio && rb[0] == b.ratio;
    }
  }

  lemma {:induction false} WithRatioKeepsShape(node: Node, path: seq<bool>, ratio: Float)
    ensures SameShape(node, node)
    ensures WithRatioAt(node, path, ratio).Some? ==> SameShape(WithRatioAt(node, path, ratio).value, node)
  {
    if node.Split? {
      var rest := if path == [] then [] else path[1..];
      WithRatioKeepsShape(node.first, rest, ratio);
      WithRatioKeepsShape(node.second, rest, ratio);
    }
  }

  class TileLayout {
    var root: Node
    var focus: nat
    var prevFocus: Option<nat>

    function View(): State
      reads this
    {
      State(root, focus, prevFocus)
    }

    predicate Valid()
      reads this
    {
      Healthy(View())
    }

    /** `TileLayout::new`. */
    constructor New(ids: PaneIdAllocator)
      modifies ids
      ensures Valid() && ids.next == old(ids.next) + 1
      ensures View() == State(Pane(old(ids.next)), old(ids.next), None)
    {
      var id := ids.Alloc();
      root := Pane(id);
      focus := id;
      prevFocus := None;
    }

    /** `TileLayout::from_saved`: the saved tree is taken as it is. */
    constructor FromSaved(saved: Node, focused: nat)
      ensures View() == State(saved, focused, None)
      ensures Valid() <==> Unique(saved) && RatiosInRange(saved) && focused in IdSet(saved)
    {
      root := saved;
      focus := focused;
      prevFocus := None;
    }

    method SetFocus(id: nat)
      modifies this
      ensures View() == WithFocus(old(View()), id)
    {
      if id != focus {
        prevFocus := Some(focus);
        focus := id;
      }
    }

    method PaneIds() returns (ids: seq<nat>)
      ensures ids == Ids(root)
      ensures forall id :: id in ids <==> id in IdSet(root)
    {
      ids := CollectIds(root, []);
      IdsMembers(root);
    }

    method GetPanes(area: Rect) returns (panes: seq<PaneInfo>)
      ensures panes == Panes(root, area, focus)
    {
      panes := CollectPanes(root, area, focus, []);
    }

    method GetSplits(area: Rect) returns (splits: seq<SplitBorder>)
      ensures splits == Splits(root, area, [])
    {
      var path;
      splits, path := CollectSplits(root, area, [], []);
    }

    method SplitPane(ids: PaneIdAllocator, target: nat, d: Direction, ratio: Float) returns (r: Option<nat>)
      requires Valid() && forall id :: id in IdSet(root) ==> id < ids.next
      modifies this, ids
      ensures Valid() && forall id :: id in IdSet(root) ==> id < ids.next
      ensures r == if target in IdSet(old(root)) then Some(old(ids.next)) else None
      ensures ids.next == old(ids.next) + (if r.Some? then 1 else 0)
      ensures View() == SplitPaneSpec(old(View()), target, d, old(ids.next), ratio)
    {
      SplitKeepsHealthy(View(), target, d, ids.next, ratio);
      var leaf := SplitLeaf(target, d, ids.next, ValidSplitRatio(ratio));
      ReplaceFinds(root, target, leaf);
      match ReplacePane(root, target, leaf)
      case None =>
        r := None;
      case Some(grown) =>
        var id := ids.Alloc();
        root := grown;
        r := Some(id);
    }

    method InsertPaneNear(target: nat, moved: nat, d: Direction, ratio: Float, focused: bool) returns (ok: bool)
      requires Valid()
      modifies this
      ensures Valid()
      ensures ok == CanInsert(old(View()), target, moved)
      ensures View() == InsertPaneNearSpec(old(View()), target, moved, d, ratio, focused)
    {
      ok := false;
      if target != moved {
        var ids := PaneIds();
        if moved !in ids {
          SplitKeepsHealthy(View(), target, d, moved, ratio);
          var leaf := SplitLeaf(target, d, moved, ValidSplitRatio(ratio));
          ReplaceFinds(root, target, leaf);
          match ReplacePane(root, target, leaf)
          case None =>
          case Some(grown) =>
            root := grown;
            if focused {
              SetFocus(moved);
            }
            ok := true;
        }
      }
    }

    /** The placeholder root never survives: removing the focused pane leaves a tree. */
    method CloseFocused() returns (ok: bool)
      requires Valid()
      modifies this
      ensures Valid()
      ensures ok == old(root.Split?)
      ensures View() == ClosePaneSpec(old(View()), old(focus))
    {
      CloseKeepsHealthy(View(), focus);
      CountIsOneForPane(root);
      if CountPanes(root) <= 1 {
        return false;
      }
      var target := focus;
      var ids := PaneIds();
      var pos := 0;
      while ids[pos] != target
        invariant 0 <= pos < |ids| && target in ids
        invariant forall j :: 0 <= j < pos ==> ids[j] != target
        decreases |ids| - pos
      {
        pos := pos + 1;
      }
      assert pos == IndexOf(ids, target);
      var ordered := if pos + 1 < |ids| then ids[pos + 1] else ids[pos - 1];
      var newFocus := ordered;
      if prevFocus.Some? && prevFocus.value != target && prevFocus.value in ids {
        newFocus := prevFocus.value;
      }
      var removed := root;
      root := Pane(0);
      RemoveKeepsOthers(removed, target);
      match Remove(removed, target)
      case Some(rest) =>
        root := rest;
        focus := newFocus;
        prevFocus := None;
        ok := true;
      case None =>
        assert false;
    }

    method ClosePane(id: nat) returns (ok: bool)
      requires Valid()
      modifies this
      ensures Valid()
      ensures ok == CanClose(old(View()), id)
      ensures View() == ClosePaneSpec(old(View()), id)
    {
      if focus == id {
        ok := CloseFocused();
        return;
      }
      CloseKeepsHealthy(View(), id);
      CountIsOneForPane(root);
      var ids := PaneIds();
      if CountPanes(root) <= 1 || id !in ids {
        return false;
      }
      var removed := root;
      root := Pane(0);
      RemoveKeepsOthers(removed, id);
      match Remove(removed, id)
      case Some(rest) =>
        root := rest;
        if prevFocus == Some(id) {
          prevFocus := None;
        }
        ok := true;
      case None =>
        assert false;
    }

    method FocusPane(id: nat)
      requires Valid()
      modifies this
      ensures Valid()
      ensures View() == FocusPaneSpec(old(View()), id)
    {
      var ids := PaneIds();
      if id in ids {
        SetFocus(id);
      }
    }

    method SwapPanes(a: nat, b: nat) returns (ok: bool)
      requires Valid()
      modifies this
      ensures Valid()
      ensures ok == (a != b && a in IdSet(old(root)) && b in IdSet(old(root)))
      ensures View() == SwapPanesSpec(old(View()), a, b)
    {
      SwapKeepsHealthy(View(), a, b);
      var ids := PaneIds();
      ok := a != b && a in ids && b in ids;
      if ok {
        root := SwapIds(root, a, b);
      }
    }

    /** The ratio invariant survives unless a NaN reaches a split. */
    method SetRatioAt(path: seq<bool>, ratio: Float) returns (ok: bool)
      requires Valid()
      modifies this
      ensures ok == IsSplitPath(old(root), path)
      ensures View() == SetRatioSpec(old(View()), path, ratio)
      ensures Valid() <==> !ratio.NaN? || !ok
    {
      SetRatioKeepsHealthy(View(), path, ratio);
      WithRatioSucceeds(root, path, Clamp(ratio));
      match WithRatioAt(root, path, Clamp(ratio))
      case None =>
        ok := false;
      case Some(resized) =>
        root := resized;
        ok := true;
    }

    method ResizeFocused(nav: NavDirection, delta: Float, area: Rect)
      requires Healthy(State(root, focus, None))
      modifies this
      ensures View() == ResizePaneSpec(old(View()), old(focus), nav, delta, area)
      ensures old(Valid()) && !delta.NaN? ==> Valid()
    {
      var _ := ResizeChangesOneAncestor(State(root, focus, None), focus, nav, delta, area);
      var panes := GetPanes(area);
      var listed := PaneIsListed(root, area, focus, focus);
      var i := 0;
      while !panes[i].isFocused
        invariant 0 <= i <= listed < |panes| && panes[listed].isFocused
        decreases listed - i
      {
        i := i + 1;
      }
      PanesFollowIds(root, area, focus);
      PanesArePaneRects(root, area, focus, i);
      var focusedRect := panes[i].rect;
      var splits := GetSplits(area);
      var best := Nearest(splits, focusedRect, nav);
      if best.None? {
        best := Nearest(splits, focusedRect, Opposite(nav));
      }
      if best.Some? {
        var path := best.value.path;
        var current := RatioAt(root, path);
        var ratio := if current.Some? then current.value else Finite(0.5);
        var adjusted := Add(ratio, if Forward(nav) then delta else Negate(delta));
        var resized := WithRatioAt(root, path, Clamp(adjusted));
        if resized.Some? {
          root := resized.value;
        }
      }
    }

    /** Focus is borrowed for the resize and given back; the result tells whether a ratio changed. */
    method ResizePane(id: nat, nav: NavDirection, delta: Float, area: Rect) returns (changed: bool)
      requires Valid()
      modifies this
      ensures View() == ResizePaneSpec(old(View()), id, nav, delta, area)
      ensures changed <==> root != old(root)
      ensures !delta.NaN? ==> Valid()
    {
      var ids := PaneIds();
      if id !in ids {
        return false;
      }
      var _ := ResizeChangesOneAncestor(View(), id, nav, delta, area);
      var before := SplitRatios(root);
      var previousFocus := focus;
      ResizedKeepsShape(root, area, PaneRect(root, area, id), nav, delta);
      focus := id;
      ResizeFocused(nav, delta, area);
      focus := previousFocus;
      RatiosDetermineTree(root, old(root));
      changed := SplitRatios(root) != before;
    }

    /** The prediction reads the layout and leaves it alone. */
    method PredictSplit(area: Rect, target: nat, d: Direction, ratio: Float) returns (r: Option<(seq<PaneInfo>, nat)>)
      ensures r == PanesAfterSplit(root, area, focus, target, d, ratio)
    {
      var panes := GetPanes(area);
      match Position(panes, target)
      case None =>
        r := None;
      case Some(index) =>
        var (first, second) := SplitRect(panes[index].rect, d, ValidSplitRatio(ratio));
        ghost var before := panes;
        panes := panes[index := panes[index].(rect := first)];
        var added := panes[index].(rect := second, isFocused := false);
        panes := panes[..index + 1] + [added] + panes[index + 1..];
        assert panes == Spliced(before, index, [before[index].(rect := first), added]);
        r := Some((panes, index + 1));
    }
  }

  lemma CountIsOneForPane(node: Node)
    ensures CountPanes(node) <= 1 <==> node.Pane?
  {
    if node.Split? {
      IdsMembers(node.first);
      IdsMembers(node.second);
    }
  }

  lemma ResizedKeepsShape(node: Node, area: Rect, focused: Rect, nav: NavDirection, delta: Float)
    ensures SameShape(ResizedTree(node, area, focused, nav, delta), node)
  {
    WithRatioKeepsShape(node, [], Finite(0.5));
    var selected := SelectedSplit(node, area, focused, nav);
    if selected.Some? {
      var path := selected.value.path;
      var current := if RatioAt(node, path).Some? then RatioAt(node, path).value else Finite(0.5);
      WithRatioKeepsShape(node, path, Clamp(Add(current, if Forward(nav) then delta else Negate(delta))));
    }
  }
}
