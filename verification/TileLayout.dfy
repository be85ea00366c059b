/**
 The tiling layout of a workspace (`TileLayout`, src/layout.rs): a split tree, the focused pane and
 one remembered pane. The specification works on `State` values; the class updates its fields in
 place and is proved against it.
 */
module TileLayouts {
  import opened Options
  import opened LayoutGeometry
  import opened LayoutTree
  import opened LayoutEdits
  import opened LayoutResize

  datatype State = State(root: Node, focus: nat, prev: Option<nat>)

  /** Distinct ids, a live focus, a remembered pane that is live and not the focus, ratios in range. */
  predicate Healthy(s: State) {
    && Unique(s.root)
    && RatiosInRange(s.root)
    && s.focus in IdSet(s.root)
    && (s.prev.Some? ==> s.prev.value in IdSet(s.root) && s.prev.value != s.focus)
  }

  // --- Specification of the operations ---

  function WithFocus(s: State, id: nat): State {
    if id == s.focus then s else s.(focus := id, prev := Some(s.focus))
  }

  function FocusPaneSpec(s: State, id: nat): State {
    if id in IdSet(s.root) then WithFocus(s, id) else s
  }

  function SplitPaneSpec(s: State, target: nat, d: Direction, newId: nat, ratio: Float): State {
    match ReplacePane(s.root, target, SplitLeaf(target, d, newId, ValidSplitRatio(ratio)))
    case Some(root) => s.(root := root)
    case None => s
  }

  predicate CanInsert(s: State, target: nat, moved: nat) {
    target in IdSet(s.root) && moved !in IdSet(s.root)
  }

  function InsertPaneNearSpec(s: State, target: nat, moved: nat, d: Direction, ratio: Float, focus: bool): State {
    if !CanInsert(s, target, moved) then s
    else
      var grown := SplitPaneSpec(s, target, d, moved, ratio);
      if focus then WithFocus(grown, moved) else grown
  }

  function IndexOf(ids: seq<nat>, id: nat): (i: nat)
    requires id in ids
    ensures i < |ids| && ids[i] == id
    ensures forall j :: 0 <= j < i ==> ids[j] != id
  {
    if ids[0] == id then 0 else 1 + IndexOf(ids[1..], id)
  }

  /** The pane after the target in tree order, or before it when the target is last. */
  function Neighbour(ids: seq<nat>, id: nat): (r: nat)
    requires id in ids && |ids| > 1
    ensures r in ids
    ensures Distinct(ids) ==> r != id
  {
    var pos := IndexOf(ids, id);
    if pos + 1 < |ids| then ids[pos + 1] else ids[pos - 1]
  }

  /** Where focus goes when the focused pane closes. */
  function FocusAfterClose(s: State): nat
    requires s.focus in Ids(s.root) && |Ids(s.root)| > 1
  {
    match s.prev
    case Some(prev) => if prev != s.focus && prev in Ids(s.root) then prev else Neighbour(Ids(s.root), s.focus)
    case None => Neighbour(Ids(s.root), s.focus)
  }

  predicate CanClose(s: State, id: nat) {
    s.root.Split? && id in IdSet(s.root)
  }

  ghost function ClosePaneSpec(s: State, id: nat): State
    requires Healthy(s)
  {
    if !CanClose(s, id) then s
    else
      RemoveKeepsOthers(s.root, id);
      IdsMembers(s.root);
      IdsMembers(s.root.first);
      IdsMembers(s.root.second);
      var rest := Remove(s.root, id).value;
      if id == s.focus then State(rest, FocusAfterClose(s), None)
      else State(rest, s.focus, if s.prev == Some(id) then None else s.prev)
  }

  function SwapPanesSpec(s: State, a: nat, b: nat): State {
    if a != b && a in IdSet(s.root) && b in IdSet(s.root) then s.(root := SwapIds(s.root, a, b)) else s
  }

  function SetRatioSpec(s: State, path: seq<bool>, ratio: Float): State {
    match WithRatioAt(s.root, path, Clamp(ratio))
    case Some(root) => s.(root := root)
    case None => s
  }

  function ResizePaneSpec(s: State, id: nat, nav: NavDirection, delta: Float, area: Rect): State {
    if id !in IdSet(s.root) then s
    else s.(root := ResizedTree(s.root, area, PaneRect(s.root, area, id), nav, delta))
  }

  // --- What the operations keep ---

  lemma SplitKeepsHealthy(s: State, target: nat, d: Direction, newId: nat, ratio: Float)
    requires Healthy(s) && newId !in IdSet(s.root)
    ensures Healthy(SplitPaneSpec(s, target, d, newId, ratio))
    ensures target in IdSet(s.root) ==> IdSet(SplitPaneSpec(s, target, d, newId, ratio).root) == IdSet(s.root) + {newId}
    ensures target !in IdSet(s.root) ==> SplitPaneSpec(s, target, d, newId, ratio) == s
  {
    ReplaceFinds(s.root, target, SplitLeaf(target, d, newId, ValidSplitRatio(ratio)));
    if target in IdSet(s.root) {
      SplitAddsPane(s.root, target, d, newId, ValidSplitRatio(ratio));
    }
  }

  lemma CloseKeepsHealthy(s: State, id: nat)
    requires Healthy(s)
    ensures Healthy(ClosePaneSpec(s, id))
    ensures CanClose(s, id) ==> IdSet(ClosePaneSpec(s, id).root) == IdSet(s.root) - {id}
  {
    RemoveKeepsOthers(s.root, id);
    UniqueIsDistinct(s.root);
    IdsMembers(s.root);
  }

  /** In a healthy layout closing the focused pane always returns to the remembered one. */
  lemma CloseReturnsToRemembered(s: State)
    requires Healthy(s) && s.root.Split? && s.prev.Some?
    ensures ClosePaneSpec(s, s.focus).focus == s.prev.value
  {
    IdsMembers(s.root);
  }

  lemma SwapKeepsHealthy(s: State, a: nat, b: nat)
    requires Healthy(s)
    ensures Healthy(SwapPanesSpec(s, a, b))
    ensures IdSet(SwapPanesSpec(s, a, b).root) == IdSet(s.root)
  {
    SwapRelabels(s.root, a, b, Rect(0, 0, 0, 0), 0);
  }

  /** Setting a ratio keeps the layout healthy exactly unless it stores a NaN. */
  lemma SetRatioKeepsHealthy(s: State, path: seq<bool>, ratio: Float)
    requires Healthy(s)
    ensures Healthy(SetRatioSpec(s, path, ratio)) <==> !ratio.NaN? || !IsSplitPath(s.root, path)
    ensures IdSet(SetRatioSpec(s, path, ratio).root) == IdSet(s.root)
  {
    WithRatioSucceeds(s.root, path, Clamp(ratio));
    if IsSplitPath(s.root, path) {
      WithRatioChangesOne(s.root, path, Clamp(ratio), path);
      if ratio.NaN? {
        InRangeAt(SetRatioSpec(s, path, ratio).root, path);
      }
    }
  }

  lemma {:induction false} InRangeAt(node: Node, path: seq<bool>)
    ensures RatiosInRange(node) && RatioAt(node, path).Some? ==> InRange(RatioAt(node, path).value)
  {
    if node.Split? && path != [] {
      InRangeAt(if path[0] then node.second else node.first, path[1..]);
    }
  }

  /** A resize sets at most one ratio, of a split containing the pane on the requested axis. */
  lemma ResizeChangesOneAncestor(s: State, id: nat, nav: NavDirection, delta: Float, area: Rect)
    returns (path: seq<bool>)
    requires Healthy(s)
    ensures var after := ResizePaneSpec(s, id, nav, delta, area);
            && after.focus == s.focus && after.prev == s.prev
            && IdSet(after.root) == IdSet(s.root)
            && (after == s || (DirectionAt(s.root, path) == Some(Axis(nav)) && id in IdsBelow(s.root, path)
                               && forall q :: q != path ==> RatioAt(after.root, q) == RatioAt(s.root, q)))
    ensures !delta.NaN? ==> Healthy(ResizePaneSpec(s, id, nav, delta, area))
  {
    path := [];
    if id in IdSet(s.root) {
      InRangeIsUnit(s.root);
      var focused := PaneRect(s.root, area, id);
      var _ := SelectedSplitIsAncestor(s.root, area, id, nav);
      var selected := SelectedSplit(s.root, area, focused, nav);
      if selected.Some? {
        path := selected.value.path;
        InRangeAt(s.root, path);
        var ratio := Clamp(Add(RatioAt(s.root, path).value, if Forward(nav) then delta else Negate(delta)));
        ClampInRange(Add(RatioAt(s.root, path).value, if Forward(nav) then delta else Negate(delta)));
        WithRatioSucceeds(s.root, path, ratio);
        forall q
          ensures WithRatioAt(s.root, path, ratio).Some?
          ensures RatioAt(WithRatioAt(s.root, path, ratio).value, q)
               == (if q == path then Some(ratio) else RatioAt(s.root, q))
        {
          WithRatioChangesOne(s.root, path, ratio, q);
        }
        WithRatioChangesOne(s.root, path, ratio, []);
      }
    }
  }

  /** Closing the pane that a split just added gives back the tree, the focus and the history. */
  lemma CloseUndoesSplit(s: State, target: nat, d: Direction, newId: nat, ratio: Float)
    requires Healthy(s) && target in IdSet(s.root) && newId !in IdSet(s.root)
    ensures Healthy(SplitPaneSpec(s, target, d, newId, ratio))
    ensures ClosePaneSpec(SplitPaneSpec(s, target, d, newId, ratio), newId) == s
  {
    SplitKeepsHealthy(s, target, d, newId, ratio);
    RemoveUndoesSplit(s.root, target, d, newId, ValidSplitRatio(ratio));
    ReplaceKeepsSplit(s.root, target, SplitLeaf(target, d, newId, ValidSplitRatio(ratio)));
  }

  lemma CloseUndoesUnfocusedInsert(s: State, target: nat, moved: nat, d: Direction, ratio: Float)
    requires Healthy(s) && CanInsert(s, target, moved)
    ensures Healthy(InsertPaneNearSpec(s, target, moved, d, ratio, false))
    ensures ClosePaneSpec(InsertPaneNearSpec(s, target, moved, d, ratio, false), moved) == s
  {
    CloseUndoesSplit(s, target, d, moved, ratio);
  }

  /** A focused insert followed by closing that pane also restores focus, but forgets older history. */
  lemma CloseAfterFocusedInsert(s: State, target: nat, moved: nat, d: Direction, ratio: Float)
    requires Healthy(s) && CanInsert(s, target, moved)
    ensures Healthy(InsertPaneNearSpec(s, target, moved, d, ratio, true))
    ensures ClosePaneSpec(InsertPaneNearSpec(s, target, moved, d, ratio, true), moved) == s.(prev := None)
  {
    SplitKeepsHealthy(s, target, d, moved, ratio);
    RemoveUndoesSplit(s.root, target, d, moved, ValidSplitRatio(ratio));
    ReplaceKeepsSplit(s.root, target, SplitLeaf(target, d, moved, ValidSplitRatio(ratio)));
    var grown := InsertPaneNearSpec(s, target, moved, d, ratio, true);
    IdsMembers(grown.root);
  }

  lemma {:induction false} ReplaceKeepsSplit(node: Node, target: nat, leaf: Node)
    requires target in IdSet(node) && leaf.Split?
    ensures ReplacePane(node, target, leaf).Some? && ReplacePane(node, target, leaf).value.Split?
  {
    ReplaceFinds(node, target, leaf);
  }

  // --- What the operations do ---

  /**
   A rectangle is divided along `d`: the first part starts where it did and gets its share to the
   nearest cell, the second part follows, and both keep the whole extent across.
   */
  ghost predicate Divides(whole: Rect, first: Rect, second: Rect, d: Direction, share: real) {
    && first.Lo(d) == whole.Lo(d) && first.Hi(d) == second.Lo(d) && second.Hi(d) == whole.Hi(d)
    && first.Lo(Other(d)) == second.Lo(Other(d)) == whole.Lo(Other(d))
    && first.Length(Other(d)) == second.Length(Other(d)) == whole.Length(Other(d))
    && first.Length(d) as real - 0.5 <= Times(whole.Length(d) as real, share) < first.Length(d) as real + 0.5
  }

  /** In this area the target shares its old rectangle with the new pane, and no other pane moves. */
  ghost predicate Divided(before: Node, after: Node, area: Rect, target: nat, d: Direction, newId: nat, ratio: Float)
    requires target in IdSet(before) && IdSet(after) == IdSet(before) + {newId}
  {
    && Divides(PaneRect(before, area, target), PaneRect(after, area, target), PaneRect(after, area, newId),
               d, if ratio.Finite? then ClampReal(ratio.value) else 0.5)
    && forall id :: id in IdSet(before) && id != target ==> PaneRect(after, area, id) == PaneRect(before, area, id)
  }

  /** A split divides the target's rectangle as asked, and keeps focus and history. */
  lemma SplitDividesTarget(s: State, target: nat, d: Direction, newId: nat, ratio: Float, area: Rect)
    requires Healthy(s) && target in IdSet(s.root) && newId !in IdSet(s.root) && area.Fits()
    ensures var after := SplitPaneSpec(s, target, d, newId, ratio);
            && IdSet(after.root) == IdSet(s.root) + {newId}
            && Divided(s.root, after.root, area, target, d, newId, ratio)
            && after.focus == s.focus && after.prev == s.prev
  {
    hide PaneRect, SplitRect, Divides, ReplacePane;
    var valid := ValidSplitRatio(ratio);
    var after := SplitPaneSpec(s, target, d, newId, ratio);
    var whole := PaneRect(s.root, area, target);
    SplitKeepsHealthy(s, target, d, newId, ratio);
    SplitLeafTakesRect(s.root, area, target, d, newId, valid, target);
    SplitLeafTakesRect(s.root, area, target, d, newId, valid, newId);
    InRangeIsUnit(s.root);
    PaneRectWithin(s.root, area, target);
    WithinFits(whole, area);
    PartsDivide(whole, d, valid.value);
    forall id | id in IdSet(s.root) && id != target
      ensures PaneRect(after.root, area, id) == PaneRect(s.root, area, id)
    {
      SplitLeafTakesRect(s.root, area, target, d, newId, valid, id);
    }
  }

  lemma PartsDivide(whole: Rect, d: Direction, share: real)
    requires whole.Fits() && 0.0 <= share <= 1.0
    ensures var (first, second) := SplitRect(whole, d, Finite(share));
            Divides(whole, first, second, d, share)
  {
    var (first, second) := SplitRect(whole, d, Finite(share));
    SplitRectParts(whole, d, Finite(share));
    assert first.Length(d) == FirstLength(whole.Length(d), Finite(share));
    assert whole.Hi(d) <= U16_MAX;
    ShareIsNearest(whole.Length(d), share);
    hide FirstLength, Times, SplitRect;
  }

  lemma ShareIsNearest(length: nat, share: real)
    requires length <= U16_MAX && 0.0 <= share <= 1.0
    ensures var first := FirstLength(length, Finite(share));
            first as real - 0.5 <= Times(length as real, share) < first as real + 0.5
  {
    ProductGap(0.0, length as real, share);
    FirstLengthIsNearest(length, share);
    hide FirstLength;
  }

  /** The operation does what was predicted: entry by entry, only the id of the new pane was unknown. */
  lemma SplitMatchesPrediction(s: State, target: nat, d: Direction, newId: nat, ratio: Float, area: Rect)
    requires s.focus in IdSet(s.root) && newId !in IdSet(s.root)
    ensures var predicted := PanesAfterSplit(s.root, area, s.focus, target, d, ratio);
            var after := Panes(SplitPaneSpec(s, target, d, newId, ratio).root, area, s.focus);
            match predicted
            case None => target !in IdSet(s.root) && after == Panes(s.root, area, s.focus)
            case Some((panes, index)) =>
              && target in IdSet(s.root) && index < |panes| == |after|
              && after == panes[index := panes[index].(id := newId)]
  {
    hide PanesAfterSplit, Panes, ReplacePane;
    SplitIsPredicted(s.root, area, s.focus, target, d, ratio, newId);
    ReplaceFinds(s.root, target, SplitLeaf(target, d, newId, ValidSplitRatio(ratio)));
  }

  /** An insert divides the target in the same way; a focused one moves the focus to the new pane. */
  lemma InsertDividesTarget(
    s: State, target: nat, moved: nat, d: Direction, ratio: Float, focused: bool, area: Rect)
    requires Healthy(s) && area.Fits()
    ensures var after := InsertPaneNearSpec(s, target, moved, d, ratio, focused);
            if target in IdSet(s.root) && moved !in IdSet(s.root) then
              && IdSet(after.root) == IdSet(s.root) + {moved}
              && Divided(s.root, after.root, area, target, d, moved, ratio)
              && (after.focus, after.prev) == if focused then (moved, Some(s.focus)) else (s.focus, s.prev)
            else after == s
  {
    if CanInsert(s, target, moved) {
      SplitDividesTarget(s, target, d, moved, ratio, area);
    }
    hide Divided, SplitPaneSpec;
  }

  /** A present pane gets the focus and the pane it leaves is remembered; an absent one changes nothing. */
  lemma FocusMoves(s: State, id: nat)
    requires Healthy(s)
    ensures var after := FocusPaneSpec(s, id);
            && after.root == s.root
            && after.focus == (if id in IdSet(s.root) then id else s.focus)
            && after.prev == (if after.focus != s.focus then Some(s.focus) else s.prev)
            && Healthy(after)
  {
  }

  /** Without a remembered pane, closing the focused one moves to the next pane in order, or back from the last. */
  lemma CloseMovesToNeighbour(s: State, k: nat)
    requires Healthy(s) && s.root.Split? && s.prev.None?
    requires k < |Ids(s.root)| && Ids(s.root)[k] == s.focus
    ensures |Ids(s.root)| > 1
    ensures var (ids, after) := (Ids(s.root), ClosePaneSpec(s, s.focus));
            && after.focus == (if k + 1 < |ids| then ids[k + 1] else ids[k - 1])
            && after.prev == None
  {
    IdsMembers(s.root);
    IdsMembers(s.root.first);
    IdsMembers(s.root.second);
    UniqueIsDistinct(s.root);
    assert IndexOf(Ids(s.root), s.focus) == k;
  }

  /** Closing another pane keeps the focus, and the remembered pane unless it is the closed one. */
  lemma CloseElsewhereKeepsFocus(s: State, id: nat)
    requires Healthy(s) && id != s.focus
    ensures var after := ClosePaneSpec(s, id);
            && after.focus == s.focus
            && after.prev == (if s.prev == Some(id) then None else s.prev)
  {
    if s.root.Pane? {
      assert id !in IdSet(s.root);
    }
  }

  /** After a close the tree holds the other panes in their order; none shrinks, none outside the sibling moves. */
  lemma CloseGivesRoomAway(s: State, id: nat, other: nat, area: Rect)
    requires Healthy(s) && CanClose(s, id) && area.Fits() && other in IdSet(s.root) && other != id
    ensures var after := ClosePaneSpec(s, id);
            && Ids(after.root) == Without(Ids(s.root), id)
            && other in IdSet(after.root)
            && PaneRect(after.root, area, other).NoSmallerThan(PaneRect(s.root, area, other))
            && (other !in SiblingIds(s.root, id) ==>
                  PaneRect(after.root, area, other) == PaneRect(s.root, area, other))
  {
    hide PaneRect, Rect.NoSmallerThan;
    RemoveKeepsOthers(s.root, id);
    InRangeIsUnit(s.root);
    ClosingShrinksNoPane(s.root, area, id, other);
  }

  /** Two present panes trade rectangles, and nothing else changes. */
  lemma SwapTradesPanes(s: State, a: nat, b: nat, area: Rect, id: nat)
    requires Healthy(s) && a in IdSet(s.root) && b in IdSet(s.root) && id in IdSet(s.root)
    ensures var after := SwapPanesSpec(s, a, b);
            && IdSet(after.root) == IdSet(s.root) && after.focus == s.focus && after.prev == s.prev
            && PaneRect(after.root, area, id)
               == PaneRect(s.root, area, if id == a then b else if id == b then a else id)
  {
    SwapKeepsHealthy(s, a, b);
    SwapTradesRects(s.root, a, b, area, Exchange(id, a, b));
  }

  /** The addressed ratio becomes the clamped one; other ratios, ids, focus and history stay. */
  lemma SetRatioStoresClamped(s: State, path: seq<bool>, ratio: Float, other: seq<bool>)
    ensures var after := SetRatioSpec(s, path, ratio);
            && Ids(after.root) == Ids(s.root) && after.focus == s.focus && after.prev == s.prev
            && (other != path ==> RatioAt(after.root, other) == RatioAt(s.root, other))
            && (IsSplitPath(s.root, path) ==>
                  RatioAt(after.root, path) == Some(match ratio
                                                    case Finite(v) => Finite(ClampReal(v))
                                                    case Infinity(positive) => Finite(if positive then 0.9 else 0.1)
                                                    case NaN => NaN))
            && (!IsSplitPath(s.root, path) ==> after == s)
  {
    WithRatioSucceeds(s.root, path, Clamp(ratio));
    if IsSplitPath(s.root, path) {
      WithRatioChangesOne(s.root, path, Clamp(ratio), other);
      WithRatioChangesOne(s.root, path, Clamp(ratio), path);
    }
  }

  /** Right and down add the delta to the ratio, left and up take it away, within the range of ratios. */
  function SteppedRatio(v: real, nav: NavDirection, delta: Float): Float {
    var grows := nav.Right? || nav.Down?;
    match delta
    case Finite(x) => Finite(ClampReal(if grows then v + x else v - x))
    case Infinity(positive) => Finite(if positive == grows then 0.9 else 0.1)
    case NaN => NaN
  }

  /**
   A resize stores, at the selected split and nowhere else, the clamped ratio that its delta asks for;
   the split divides columns for left and right and rows for up and down. Without one nothing changes.
   */
  lemma ResizeStoresStep(s: State, id: nat, nav: NavDirection, delta: Float, area: Rect, q: seq<bool>)
    requires Healthy(s)
    ensures var after := ResizePaneSpec(s, id, nav, delta, area);
            if id in IdSet(s.root) && SelectedSplit(s.root, area, PaneRect(s.root, area, id), nav).Some? then
              var path := SelectedSplit(s.root, area, PaneRect(s.root, area, id), nav).value.path;
              && DirectionAt(s.root, path) == Some(if nav.Left? || nav.Right? then Horizontal else Vertical)
              && RatioAt(s.root, path).Some? && RatioAt(s.root, path).value.Finite?
              && RatioAt(after.root, path) == Some(SteppedRatio(RatioAt(s.root, path).value.value, nav, delta))
              && (q != path ==> RatioAt(after.root, q) == RatioAt(s.root, q))
              && Ids(after.root) == Ids(s.root) && after.focus == s.focus && after.prev == s.prev
            else after == s
  {
    hide PaneRect, SelectedSplit;
    if id in IdSet(s.root) {
      InRangeIsUnit(s.root);
      var selected := SelectedSplit(s.root, area, PaneRect(s.root, area, id), nav);
      var _ := SelectedSplitIsAncestor(s.root, area, id, nav);
      if selected.Some? {
        var path := selected.value.path;
        InRangeAt(s.root, path);
        var v := RatioAt(s.root, path).value;
        var adjusted := Add(v, if Forward(nav) then delta else Negate(delta));
        assert Clamp(adjusted) == SteppedRatio(v.value, nav, delta);
        WithRatioChangesOne(s.root, path, Clamp(adjusted), path);
        WithRatioChangesOne(s.root, path, Clamp(adjusted), q);
      }
    }
  }

  // --- Whole runs ---

  datatype Op =
    | SplitPane(target: nat, direction: Direction, ratio: Float)
    | InsertPaneNear(target: nat, moved: nat, direction: Direction, ratio: Float, focused: bool)
    | ClosePane(id: nat)
    | FocusPane(id: nat)
    | SwapPanes(first: nat, second: nat)
    | SetRatio(path: seq<bool>, ratio: Float)
    | ResizePane(id: nat, nav: NavDirection, delta: Float, area: Rect)
    | AllocateElsewhere

  /** A layout together with the process-wide id counter. */
  datatype World = World(layout: State, next: nat)

  ghost predicate HealthyWorld(w: World) {
    Healthy(w.layout) && forall id :: id in IdSet(w.layout.root) ==> id < w.next
  }

  /** A moved pane has been allocated before, and no caller passes a NaN as a ratio or a delta. */
  predicate Admissible(w: World, op: Op) {
    match op
    case InsertPaneNear(_, moved, _, _, _) => moved < w.next
    case SetRatio(_, ratio) => !ratio.NaN?
    case ResizePane(_, _, delta, _) => !delta.NaN?
    case _ => true
  }

  ghost function Step(w: World, op: Op): World
    requires HealthyWorld(w)
  {
    var s := w.layout;
    match op
    case SplitPane(target, d, ratio) =>
      if target in IdSet(s.root) then World(SplitPaneSpec(s, target, d, w.next, ratio), w.next + 1) else w
    case InsertPaneNear(target, moved, d, ratio, focused) =>
      w.(layout := InsertPaneNearSpec(s, target, moved, d, ratio, focused))
    case ClosePane(id) => w.(layout := ClosePaneSpec(s, id))
    case FocusPane(id) => w.(layout := FocusPaneSpec(s, id))
    case SwapPanes(a, b) => w.(layout := SwapPanesSpec(s, a, b))
    case SetRatio(path, ratio) => w.(layout := SetRatioSpec(s, path, ratio))
    case ResizePane(id, nav, delta, area) => w.(layout := ResizePaneSpec(s, id, nav, delta, area))
    case AllocateElsewhere => w.(next := w.next + 1)
  }

  lemma StepKeepsHealthy(w: World, op: Op)
    requires HealthyWorld(w) && Admissible(w, op)
    ensures HealthyWorld(Step(w, op))
  {
    var s := w.layout;
    match op
    case SplitPane(target, d, ratio) => SplitKeepsHealthy(s, target, d, w.next, ratio);
    case InsertPaneNear(target, moved, d, ratio, _) =>
      if CanInsert(s, target, moved) {
        SplitKeepsHealthy(s, target, d, moved, ratio);
      }
    case ClosePane(id) => CloseKeepsHealthy(s, id);
    case FocusPane(_) =>
    case SwapPanes(a, b) => SwapKeepsHealthy(s, a, b);
    case SetRatio(path, ratio) => SetRatioKeepsHealthy(s, path, ratio);
    case ResizePane(id, nav, delta, area) => var _ := ResizeChangesOneAncestor(s, id, nav, delta, area);
    case AllocateElsewhere =>
  }

  /** `w'` is reached from `w` by admissible operations. */
  ghost predicate Reaches(w: World, ops: seq<Op>, w': World)
    decreases |ops|
  {
    if ops == [] then w == w'
    else HealthyWorld(w) && Admissible(w, ops[0]) && Reaches(Step(w, ops[0]), ops[1..], w')
  }

  /** Every run of operations keeps the layout healthy, with at least one pane left. */
  lemma {:induction false} RunsStayHealthy(w: World, ops: seq<Op>, w': World)
    requires HealthyWorld(w) && Reaches(w, ops, w')
    ensures HealthyWorld(w')
    ensures |Ids(w'.layout.root)| >= 1 && Distinct(Ids(w'.layout.root))
    decreases |ops|
  {
    if ops == [] {
      IdsMembers(w.layout.root);
      UniqueIsDistinct(w.layout.root);
    } else {
      StepKeepsHealthy(w, ops[0]);
      RunsStayHealthy(Step(w, ops[0]), ops[1..], w');
    }
  }
}
