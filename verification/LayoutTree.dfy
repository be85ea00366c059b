/**
 The binary split tree (`Node`) of src/layout.rs: the rectangles and split borders computed from
 it, and the tree edits behind splitting, closing, swapping and resizing.
 */
module LayoutTree {
  import opened Options
  import opened LayoutGeometry

  datatype Node =
    | Pane(id: nat)
    | Split(direction: Direction, ratio: Float, first: Node, second: Node)

  datatype PaneInfo = PaneInfo(id: nat, rect: Rect, isFocused: bool)

  datatype SplitBorder = SplitBorder(pos: nat, direction: Direction, ratio: Float, area: Rect, path: seq<bool>)

  // --- Pane ids ---

  /** `collect_ids`. */
  function Ids(node: Node): seq<nat> {
    match node
    case Pane(id) => [id]
    case Split(_, _, first, second) => Ids(first) + Ids(second)
  }

  function IdSet(node: Node): set<nat> {
    match node
    case Pane(id) => {id}
    case Split(_, _, first, second) => IdSet(first) + IdSet(second)
  }

  /** Every pane id occurs once. */
  predicate Unique(node: Node) {
    node.Split? ==> Unique(node.first) && Unique(node.second) && IdSet(node.first) !! IdSet(node.second)
  }

  ghost predicate Distinct<T>(s: seq<T>) {
    forall i, j :: 0 <= i < j < |s| ==> s[i] != s[j]
  }

  lemma {:induction false} IdsMembers(node: Node)
    ensures |Ids(node)| > 0
    ensures forall id :: id in Ids(node) <==> id in IdSet(node)
  {
    if node.Split? {
      IdsMembers(node.first);
      IdsMembers(node.second);
    }
  }

  lemma DistinctConcat<T>(a: seq<T>, b: seq<T>)
    ensures Distinct(a + b) <==> Distinct(a) && Distinct(b) && forall x :: x in a ==> x !in b
  {
    var s := a + b;
    if Distinct(s) {
      forall x | x in a
        ensures x !in b
      {
        var i :| 0 <= i < |a| && a[i] == x;
        assert s[i] == x && forall j :: 0 <= j < |b| ==> b[j] == s[|a| + j];
      }
      assert Distinct(a) by { assert forall i :: 0 <= i < |a| ==> a[i] == s[i]; }
      assert Distinct(b) by { assert forall i :: 0 <= i < |b| ==> b[i] == s[|a| + i]; }
    } else {
      var i, j :| 0 <= i < j < |s| && s[i] == s[j];
      assert i < |a| <= j ==> a[i] in a && b[j - |a|] in b;
    }
  }

  lemma {:induction false} UniqueIsDistinct(node: Node)
    ensures Unique(node) <==> Distinct(Ids(node))
  {
    if node.Split? {
      UniqueIsDistinct(node.first);
      UniqueIsDistinct(node.second);
      IdsMembers(node.first);
      IdsMembers(node.second);
      DistinctConcat(Ids(node.first), Ids(node.second));
    }
  }

  predicate UnitRatios(node: Node) {
    node.Split? ==> Unit(node.ratio) && UnitRatios(node.first) && UnitRatios(node.second)
  }

  predicate RatiosInRange(node: Node) {
    node.Split? ==> InRange(node.ratio) && RatiosInRange(node.first) && RatiosInRange(node.second)
  }

  lemma InRangeIsUnit(node: Node)
    requires RatiosInRange(node)
    ensures UnitRatios(node)
  {
  }

  // --- Rectangles ---

  /** `collect_panes`: the pane rectangles in tree order. */
  function Panes(node: Node, area: Rect, focus: nat): seq<PaneInfo> {
    match node
    case Pane(id) => [PaneInfo(id, area, id == focus)]
    case Split(direction, ratio, first, second) =>
      var (a, b) := SplitRect(area, direction, ratio);
      Panes(first, a, focus) + Panes(second, b, focus)
  }

  /** The rectangle of one pane. */
  function PaneRect(node: Node, area: Rect, id: nat): Rect
    requires id in IdSet(node)
  {
    match node
    case Pane(_) => area
    case Split(direction, ratio, first, second) =>
      var (a, b) := SplitRect(area, direction, ratio);
      if id in IdSet(first) then PaneRect(first, a, id) else PaneRect(second, b, id)
  }

  lemma {:induction false} PanesFollowIds(node: Node, area: Rect, focus: nat)
    ensures |Panes(node, area, focus)| == |Ids(node)|
    ensures forall i :: 0 <= i < |Ids(node)| ==>
              && Panes(node, area, focus)[i].id == Ids(node)[i]
              && Panes(node, area, focus)[i].isFocused == (Ids(node)[i] == focus)
  {
    if node.Split? {
      var (a, b) := SplitRect(area, node.direction, node.ratio);
      PanesFollowIds(node.first, a, focus);
      PanesFollowIds(node.second, b, focus);
    }
  }

  /** With distinct ids, `Panes` lists exactly the rectangle of every pane. */
  lemma {:induction false} PanesArePaneRects(node: Node, area: Rect, focus: nat, i: nat)
    requires Unique(node) && i < |Panes(node, area, focus)|
    ensures var info := Panes(node, area, focus)[i];
            info.id in IdSet(node) && info.rect == PaneRect(node, area, info.id)
  {
    if node.Split? {
      var (a, b) := SplitRect(area, node.direction, node.ratio);
      var firsts := Panes(node.first, a, focus);
      if i < |firsts| {
        PanesArePaneRects(node.first, a, focus, i);
      } else {
        PanesArePaneRects(node.second, b, focus, i - |firsts|);
      }
    }
  }

  lemma {:induction false} PaneIsListed(node: Node, area: Rect, focus: nat, id: nat) returns (i: nat)
    requires Unique(node) && id in IdSet(node)
    ensures i < |Panes(node, area, focus)|
    ensures Panes(node, area, focus)[i] == PaneInfo(id, PaneRect(node, area, id), id == focus)
  {
    IdsMembers(node);
    PanesFollowIds(node, area, focus);
    i :| 0 <= i < |Ids(node)| && Ids(node)[i] == id;
    PanesArePaneRects(node, area, focus, i);
  }

  lemma {:induction false} PaneRectWithin(node: Node, area: Rect, id: nat)
    requires UnitRatios(node) && id in IdSet(node)
    ensures PaneRect(node, area, id).Within(area)
  {
    if node.Split? {
      SplitRectParts(area, node.direction, node.ratio);
      var (a, b) := SplitRect(area, node.direction, node.ratio);
      if id in IdSet(node.first) {
        PaneRectWithin(node.first, a, id);
        WithinTransitive(PaneRect(node.first, a, id), a, area);
      } else {
        PaneRectWithin(node.second, b, id);
        WithinTransitive(PaneRect(node.second, b, id), b, area);
      }
    }
  }

  /** A tree laid out in an area that is no smaller gives no pane less room. */
  lemma {:induction false} PaneRectMonotone(node: Node, small: Rect, large: Rect, id: nat)
    requires UnitRatios(node) && id in IdSet(node) && large.NoSmallerThan(small) && large.Fits()
    ensures PaneRect(node, large, id).NoSmallerThan(PaneRect(node, small, id))
  {
    if node.Split? {
      SplitRectMonotone(small, large, node.direction, node.ratio);
      SplitRectParts(large, node.direction, node.ratio);
      var (a, b) := SplitRect(small, node.direction, node.ratio);
      var (a', b') := SplitRect(large, node.direction, node.ratio);
      WithinFits(a', large);
      WithinFits(b', large);
      if id in IdSet(node.first) {
        PaneRectMonotone(node.first, a, a', id);
      } else {
        PaneRectMonotone(node.second, b, b', id);
      }
    }
  }

  // --- Tiling ---

  /** How many of the listed panes cover a cell. */
  function Coverage(panes: seq<PaneInfo>, x: int, y: int): nat {
    if panes == [] then 0
    else (if panes[0].rect.Covers(x, y) then 1 else 0) + Coverage(panes[1..], x, y)
  }

  lemma {:induction false} CoverageConcat(a: seq<PaneInfo>, b: seq<PaneInfo>, x: int, y: int)
    ensures Coverage(a + b, x, y) == Coverage(a, x, y) + Coverage(b, x, y)
  {
    if a == [] {
      assert a + b == b;
    } else {
      assert (a + b)[1..] == a[1..] + b;
      CoverageConcat(a[1..], b, x, y);
    }
  }

  /**
   The first part of every split, as the layout of this area computes it, ends inside the split's own
   area, or that area has no cells across the split.
   */
  predicate PartsFit(node: Node, area: Rect) {
    node.Split? ==>
      var (d, (a, b)) := (node.direction, SplitRect(area, node.direction, node.ratio));
      && (FirstLength(area.Length(d), node.ratio) <= area.Length(d) || area.Length(Other(d)) == 0)
      && PartsFit(node.first, a) && PartsFit(node.second, b)
  }

  lemma {:induction false} UnitRatiosFit(node: Node, area: Rect)
    requires UnitRatios(node)
    ensures PartsFit(node, area)
  {
    if node.Split? {
      var (a, b) := SplitRect(area, node.direction, node.ratio);
      FirstLengthBounds(area.Length(node.direction), node.ratio);
      UnitRatiosFit(node.first, a);
      UnitRatiosFit(node.second, b);
    }
  }

  /** The panes tile the area: a cell of the area lies in exactly one pane, any other in none. */
  lemma {:induction false} PanesTileArea(node: Node, area: Rect, focus: nat, x: int, y: int)
    requires PartsFit(node, area)
    ensures Coverage(Panes(node, area, focus), x, y) == Cells(area, x, y)
  {
    match node
    case Pane(_) =>
    case Split(direction, ratio, first, second) =>
      var (a, b) := SplitRect(area, direction, ratio);
      PanesTileArea(first, a, focus, x, y);
      PanesTileArea(second, b, focus, x, y);
      CoverageConcat(Panes(first, a, focus), Panes(second, b, focus), x, y);
  }

  function Cells(area: Rect, x: int, y: int): nat {
    if area.Covers(x, y) then 1 else 0
  }

  /** Whatever the ratios are, no cell of the area is left uncovered. */
  lemma {:induction false} PanesCoverArea(node: Node, area: Rect, focus: nat, x: int, y: int)
    ensures Coverage(Panes(node, area, focus), x, y) >= Cells(area, x, y)
  {
    match node
    case Pane(_) =>
    case Split(direction, ratio, first, second) =>
      var (a, b) := SplitRect(area, direction, ratio);
      PanesCoverArea(first, a, focus, x, y);
      PanesCoverArea(second, b, focus, x, y);
      CoverageConcat(Panes(first, a, focus), Panes(second, b, focus), x, y);
  }

  /** A part that does not fit puts some cell into one pane too many. */
  lemma {:induction false} OverflowingCell(node: Node, area: Rect, focus: nat) returns (x: int, y: int)
    requires !PartsFit(node, area)
    ensures Coverage(Panes(node, area, focus), x, y) > Cells(area, x, y)
  {
    var (a, b) := SplitRect(area, node.direction, node.ratio);
    if !PartsFit(node.first, a) {
      x, y := OverflowingCell(node.first, a, focus);
    } else if !PartsFit(node.second, b) {
      x, y := OverflowingCell(node.second, b, focus);
    } else {
      x := if node.direction.Horizontal? then area.x + area.width else area.x;
      y := if node.direction.Horizontal? then area.y else area.y + area.height;
    }
    PanesCoverArea(node.first, a, focus, x, y);
    PanesCoverArea(node.second, b, focus, x, y);
    CoverageConcat(Panes(node.first, a, focus), Panes(node.second, b, focus), x, y);
  }

  /** The panes tile the area exactly when the parts of its splits fit. */
  lemma TilesExactlyWhenPartsFit(node: Node, area: Rect, focus: nat)
    ensures PartsFit(node, area) <==> forall x, y :: Coverage(Panes(node, area, focus), x, y) == Cells(area, x, y)
  {
    if PartsFit(node, area) {
      forall x, y
        ensures Coverage(Panes(node, area, focus), x, y) == Cells(area, x, y)
      {
        PanesTileArea(node, area, focus, x, y);
      }
    } else {
      var x, y := OverflowingCell(node, area, focus);
    }
  }

  /** A stored ratio can break the tiling: twice the width of a row of ten does not fit. */
  lemma LargeRatioBreaksTiling(area: Rect) returns (node: Node, x: int, y: int)
    requires area == Rect(0, 0, 10, 1)
    ensures Unique(node) && !PartsFit(node, area)
    ensures !area.Covers(x, y) && Coverage(Panes(node, area, 1), x, y) >= 1
  {
    node := Split(Horizontal, Finite(2.0), Pane(1), Pane(2));
    var a := SplitRect(area, Horizontal, Finite(2.0)).0;
    assert FirstLength(10, Finite(2.0)) == 20;
    x, y := 15, 0;
    PanesCoverArea(node.first, a, 1, x, y);
    CoverageConcat(Panes(node.first, a, 1), Panes(node.second, SplitRect(area, Horizontal, Finite(2.0)).1, 1), x, y);
  }

  lemma {:induction false} CoveredBySome(panes: seq<PaneInfo>, x: int, y: int) returns (i: nat)
    requires Coverage(panes, x, y) > 0
    ensures i < |panes| && panes[i].rect.Covers(x, y)
  {
    if panes[0].rect.Covers(x, y) {
      i := 0;
    } else {
      var j := CoveredBySome(panes[1..], x, y);
      i := j + 1;
    }
  }

  lemma {:induction false} CoverageAtLeast(panes: seq<PaneInfo>, i: nat, j: nat, x: int, y: int)
    requires i < |panes| && panes[i].rect.Covers(x, y)
    ensures Coverage(panes, x, y) >= 1
    ensures i < j < |panes| && panes[j].rect.Covers(x, y) ==> Coverage(panes, x, y) >= 2
  {
    if i > 0 {
      CoverageAtLeast(panes[1..], i - 1, if j > 0 then j - 1 else 0, x, y);
    } else if i < j < |panes| && panes[j].rect.Covers(x, y) {
      CoverageAtLeast(panes[1..], j - 1, 0, x, y);
    }
  }

  /** The tiling as a caller uses it: the pane at a cell of the area exists and is the only one. */
  lemma PaneAt(node: Node, area: Rect, focus: nat, x: int, y: int) returns (i: nat)
    requires PartsFit(node, area) && area.Covers(x, y)
    ensures i < |Panes(node, area, focus)| && Panes(node, area, focus)[i].rect.Covers(x, y)
    ensures forall j :: 0 <= j < |Panes(node, area, focus)| && Panes(node, area, focus)[j].rect.Covers(x, y) ==> j == i
  {
    var panes := Panes(node, area, focus);
    PanesTileArea(node, area, focus, x, y);
    i := CoveredBySome(panes, x, y);
    forall j | 0 <= j < |panes| && panes[j].rect.Covers(x, y)
      ensures j == i
    {
      if j < i {
        CoverageAtLeast(panes, j, i, x, y);
      } else {
        CoverageAtLeast(panes, i, j, x, y);
      }
    }
  }

  lemma OnePaneAt(node: Node, area: Rect, p: nat, q: nat, x: int, y: int)
    requires Unique(node) && PartsFit(node, area) && area.Covers(x, y)
    requires p in IdSet(node) && PaneRect(node, area, p).Covers(x, y)
    requires q in IdSet(node) && PaneRect(node, area, q).Covers(x, y)
    ensures p == q
  {
    hide Panes, PaneRect, PartsFit, Unique;
    var only := PaneAt(node, area, 0, x, y);
    var i := PaneIsListed(node, area, 0, p);
    var j := PaneIsListed(node, area, 0, q);
  }

  // --- Split borders ---

  /** `collect_splits`: the split borders in preorder, below a split reached by `path`. */
  function Splits(node: Node, area: Rect, path: seq<bool>): seq<SplitBorder> {
    match node
    case Pane(_) => []
    case Split(direction, ratio, first, second) =>
      var (a, b) := SplitRect(area, direction, ratio);
      [SplitBorder(a.Hi(direction), direction, ratio, area, path)]
        + Splits(first, a, path + [false]) + Splits(second, b, path + [true])
  }

  /** The paths of a tree's splits, as a set independent of the listing. */
  predicate IsSplitPath(node: Node, path: seq<bool>) {
    node.Split? && (path == [] || IsSplitPath(if path[0] then node.second else node.first, path[1..]))
  }

  /** `get_ratio_at`. */
  function RatioAt(node: Node, path: seq<bool>): Option<Float> {
    if node.Pane? then None
    else if path == [] then Some(node.ratio)
    else if path[0] then RatioAt(node.second, path[1..])
    else RatioAt(node.first, path[1..])
  }

  function DirectionAt(node: Node, path: seq<bool>): Option<Direction> {
    if node.Pane? then None
    else if path == [] then Some(node.direction)
    else DirectionAt(if path[0] then node.second else node.first, path[1..])
  }

  /** `set_ratio_at`: the edited tree, or none when the path names no split. */
  function WithRatioAt(node: Node, path: seq<bool>, ratio: Float): Option<Node> {
    if node.Pane? then None
    else if path == [] then Some(node.(ratio := ratio))
    else if path[0] then
      match WithRatioAt(node.second, path[1..], ratio)
      case None => None
      case Some(second) => Some(node.(second := second))
    else
      match WithRatioAt(node.first, path[1..], ratio)
      case None => None
      case Some(first) => Some(node.(first := first))
  }

  /** Every listed split sits at a split path and carries the ratio and direction found there. */
  lemma {:induction false} SplitsSound(node: Node, area: Rect, path: seq<bool>, i: nat)
    requires i < |Splits(node, area, path)|
    ensures var s := Splits(node, area, path)[i];
            && path <= s.path && IsSplitPath(node, s.path[|path|..])
            && RatioAt(node, s.path[|path|..]) == Some(s.ratio)
            && DirectionAt(node, s.path[|path|..]) == Some(s.direction)
  {
    var (a, b) := SplitRect(area, node.direction, node.ratio);
    var firsts := Splits(node.first, a, path + [false]);
    var s := Splits(node, area, path)[i];
    if i == 0 {
      assert s.path[|path|..] == [];
    } else if i <= |firsts| {
      SplitsSound(node.first, a, path + [false], i - 1);
      assert s == firsts[i - 1];
      assert s.path[|path|..] == [false] + s.path[|path| + 1..];
    } else {
      SplitsSound(node.second, b, path + [true], i - 1 - |firsts|);
      assert s == Splits(node.second, b, path + [true])[i - 1 - |firsts|];
      assert s.path[|path|..] == [true] + s.path[|path| + 1..];
    }
  }

  lemma {:induction false} SplitsComplete(node: Node, area: Rect, prefix: seq<bool>, path: seq<bool>) returns (i: nat)
    requires IsSplitPath(node, path)
    ensures i < |Splits(node, area, prefix)| && Splits(node, area, prefix)[i].path == prefix + path
  {
    if path == [] {
      i := 0;
    } else {
      var (a, b) := SplitRect(area, node.direction, node.ratio);
      var firsts := Splits(node.first, a, prefix + [false]);
      assert prefix + path == prefix + [path[0]] + path[1..];
      if path[0] {
        var j := SplitsComplete(node.second, b, prefix + [true], path[1..]);
        i := 1 + |firsts| + j;
      } else {
        var j := SplitsComplete(node.first, a, prefix + [false], path[1..]);
        i := 1 + j;
      }
    }
  }

  /** The listing follows preorder: the order in which `PathBefore` visits the paths. */
  predicate PathBefore(p: seq<bool>, q: seq<bool>) {
    if p == [] then q != []
    else q != [] && ((!p[0] && q[0]) || (p[0] == q[0] && PathBefore(p[1..], q[1..])))
  }

  lemma {:induction false} PathBeforeExtends(prefix: seq<bool>, p: seq<bool>, q: seq<bool>)
    ensures PathBefore(prefix + p, prefix + q) <==> PathBefore(p, q)
  {
    if prefix == [] {
      assert prefix + p == p && prefix + q == q;
    } else {
      assert (prefix + p)[1..] == prefix[1..] + p && (prefix + q)[1..] == prefix[1..] + q;
      PathBeforeExtends(prefix[1..], p, q);
    }
  }

  lemma {:induction false} PathBeforeIrreflexive(p: seq<bool>)
    ensures !PathBefore(p, p)
  {
    if p != [] {
      PathBeforeIrreflexive(p[1..]);
    }
  }

  /** A split comes before everything below it, and its first child's splits before its second's. */
  lemma SiblingsInOrder(path: seq<bool>, p: seq<bool>, q: seq<bool>)
    requires path <= p && path <= q && p != q
    requires p == path || (path + [false] <= p && path + [true] <= q)
    ensures PathBefore(p, q)
  {
    var (p', q') := (p[|path|..], q[|path|..]);
    assert p == path + p' && q == path + q';
    PathBeforeExtends(path, p', q');
    if p != path {
      assert p'[0] == p[|path|] == false && q'[0] == q[|path|] == true;
    }
  }

  lemma {:induction false} SplitPathPrefix(node: Node, area: Rect, path: seq<bool>)
    ensures forall s :: s in Splits(node, area, path) ==> path <= s.path
  {
    if node.Split? {
      var (a, b) := SplitRect(area, node.direction, node.ratio);
      SplitPathPrefix(node.first, a, path + [false]);
      SplitPathPrefix(node.second, b, path + [true]);
      assert path <= path + [false] && path <= path + [true];
    }
  }

  ghost predicate Preordered(splits: seq<SplitBorder>) {
    forall i, j :: 0 <= i < j < |splits| ==> PathBefore(splits[i].path, splits[j].path)
  }

  lemma PreorderedConcat(s: seq<SplitBorder>, t: seq<SplitBorder>)
    requires Preordered(s) && Preordered(t)
    requires forall x, y :: x in s && y in t ==> PathBefore(x.path, y.path)
    ensures Preordered(s + t)
  {
    forall i, j | 0 <= i < j < |s + t|
      ensures PathBefore((s + t)[i].path, (s + t)[j].path)
    {
      if i < |s| <= j {
        assert s[i] in s && t[j - |s|] in t;
      }
    }
  }

  /** A split, the splits below its first child and those below its second child, in this order. */
  lemma SubtreesInPreorder(root: SplitBorder, firsts: seq<SplitBorder>, seconds: seq<SplitBorder>)
    requires Preordered(firsts) && Preordered(seconds)
    requires forall s :: s in firsts ==> root.path + [false] <= s.path
    requires forall s :: s in seconds ==> root.path + [true] <= s.path
    ensures Preordered([root] + firsts + seconds)
  {
    hide PathBefore;
    var path := root.path;
    forall x, y | x in firsts && y in seconds
      ensures PathBefore(x.path, y.path)
    {
      assert x.path[|path|] == false && y.path[|path|] == true;
      SiblingsInOrder(path, x.path, y.path);
    }
    forall s | s in firsts || s in seconds
      ensures PathBefore(path, s.path)
    {
      SiblingsInOrder(path, path, s.path);
    }
    PreorderedConcat([root], firsts);
    PreorderedConcat([root] + firsts, seconds);
  }

  /** Splits appear in strict preorder. */
  lemma {:induction false} SplitsInPreorder(node: Node, area: Rect, path: seq<bool>)
    ensures Preordered(Splits(node, area, path))
  {
    hide PathBefore, SplitRect, Preordered;
    if node.Split? {
      var (a, b) := SplitRect(area, node.direction, node.ratio);
      SplitsInPreorder(node.first, a, path + [false]);
      SplitsInPreorder(node.second, b, path + [true]);
      SplitPathPrefix(node.first, a, path + [false]);
      SplitPathPrefix(node.second, b, path + [true]);
      SubtreesInPreorder(Splits(node, area, path)[0],
                         Splits(node.first, a, path + [false]), Splits(node.second, b, path + [true]));
    } else {
      SingleIsPreordered(Splits(node, area, path));
    }
  }

  lemma SingleIsPreordered(splits: seq<SplitBorder>)
    requires |splits| <= 1
    ensures Preordered(splits)
  {
  }

  /** No two splits of a layout share a path. */
  lemma SplitPathsDistinct(node: Node, area: Rect, i: nat, j: nat)
    requires i < j < |Splits(node, area, [])|
    ensures Splits(node, area, [])[i].path != Splits(node, area, [])[j].path
  {
    SplitsInPreorder(node, area, []);
    PathBeforeIrreflexive(Splits(node, area, [])[i].path);
  }

  lemma {:induction false} SplitCount(node: Node, area: Rect, path: seq<bool>)
    ensures |Splits(node, area, path)| + 1 == |Ids(node)|
  {
    if node.Split? {
      var (a, b) := SplitRect(area, node.direction, node.ratio);
      SplitCount(node.first, a, path + [false]);
      SplitCount(node.second, b, path + [true]);
    }
  }

  /** `set_ratio_at` succeeds exactly on the split paths. */
  lemma {:induction false} WithRatioSucceeds(node: Node, path: seq<bool>, ratio: Float)
    ensures WithRatioAt(node, path, ratio).Some? <==> IsSplitPath(node, path)
    ensures RatioAt(node, path).Some? <==> IsSplitPath(node, path)
  {
    if node.Split? && path != [] {
      WithRatioSucceeds(if path[0] then node.second else node.first, path[1..], ratio);
    }
  }

  /** Setting a ratio writes that one split and no other. */
  lemma {:induction false} WithRatioChangesOne(node: Node, path: seq<bool>, ratio: Float, other: seq<bool>)
    requires IsSplitPath(node, path)
    ensures WithRatioAt(node, path, ratio).Some?
    ensures var edited := WithRatioAt(node, path, ratio).value;
            && Ids(edited) == Ids(node) && IdSet(edited) == IdSet(node)
            && (Unique(node) ==> Unique(edited))
            && (RatiosInRange(node) && InRange(ratio) ==> RatiosInRange(edited))
            && RatioAt(edited, other) == (if other == path then Some(ratio) else RatioAt(node, other))
  {
    if path != [] {
      var child := if path[0] then node.second else node.first;
      WithRatioChangesOne(child, path[1..], ratio, if other == [] then [] else other[1..]);
    }
  }

  /** The ids below a path; a path that leaves the tree has none. */
  function IdsBelow(node: Node, path: seq<bool>): set<nat> {
    if path == [] then IdSet(node)
    else if node.Pane? then {}
    else IdsBelow(if path[0] then node.second else node.first, path[1..])
  }

  /** Panes outside the addressed split keep their rectangles. */
  lemma {:induction false} WithRatioKeepsOutside(node: Node, path: seq<bool>, ratio: Float, area: Rect, id: nat)
    requires Unique(node) && IsSplitPath(node, path)
    requires id in IdSet(node) && id !in IdsBelow(node, path)
    ensures WithRatioAt(node, path, ratio).Some?
    ensures var edited := WithRatioAt(node, path, ratio).value;
            id in IdSet(edited) && PaneRect(edited, area, id) == PaneRect(node, area, id)
  {
    WithRatioChangesOne(node, path, ratio, []);
    var (a, b) := SplitRect(area, node.direction, node.ratio);
    if path[0] {
      WithRatioChangesOne(node.second, path[1..], ratio, []);
      if id in IdSet(node.second) {
        WithRatioKeepsOutside(node.second, path[1..], ratio, b, id);
      }
    } else {
      WithRatioChangesOne(node.first, path[1..], ratio, []);
      if id in IdSet(node.first) {
        WithRatioKeepsOutside(node.first, path[1..], ratio, a, id);
      }
    }
  }
}
