/**
 Rectangles, split ratios and the arithmetic of `split_rect` (src/layout.rs).

 A ratio is an `f32` in the source. The model keeps the values that behave differently
 (finite, the two infinities, NaN) and computes with finite ones exactly. The geometric proofs
 for ratios from zero to one use `FirstLength` only through `FirstLengthBounds` and
 `FirstLengthMonotone`.
 */
module LayoutGeometry {

  const U16_MAX: int := 0xFFFF

  datatype Float = Finite(value: real) | Infinity(positive: bool) | NaN

  function Negate(f: Float): Float {
    match f
    case Finite(v) => Finite(-v)
    case Infinity(positive) => Infinity(!positive)
    case NaN => NaN
  }

  function Add(a: Float, b: Float): Float {
    match (a, b)
    case (Finite(x), Finite(y)) => Finite(x + y)
    case (Finite(_), _) => b
    case (_, Finite(_)) => a
    case (Infinity(p), Infinity(q)) => if p == q then a else NaN
    case _ => NaN
  }

  function ClampReal(v: real): (r: real)
    ensures 0.1 <= r <= 0.9
    ensures 0.1 <= v <= 0.9 ==> r == v
    ensures v < 0.1 ==> r == 0.1
    ensures v > 0.9 ==> r == 0.9
  {
    if v < 0.1 then 0.1 else if v > 0.9 then 0.9 else v
  }

  /** `ratio.clamp(0.1, 0.9)`: a NaN passes through. */
  function Clamp(f: Float): Float {
    match f
    case Finite(v) => Finite(ClampReal(v))
    case Infinity(positive) => Finite(if positive then 0.9 else 0.1)
    case NaN => NaN
  }

  /** A ratio that the operations of the layout are meant to store. */
  predicate InRange(f: Float) {
    f.Finite? && 0.1 <= f.value <= 0.9
  }

  /** A ratio for which both parts of a split stay inside the split area. */
  predicate Unit(f: Float) {
    f.NaN? || (f.Finite? && 0.0 <= f.value <= 1.0)
  }

  /** `valid_split_ratio`: the ratio a new split gets. */
  function ValidSplitRatio(f: Float): (r: Float)
    ensures InRange(r)
    ensures InRange(f) ==> r == f
  {
    if f.Finite? then Clamp(f) else Finite(0.5)
  }

  /** Clamping repairs every ratio except NaN. */
  lemma ClampInRange(f: Float)
    ensures InRange(Clamp(f)) <==> !f.NaN?
    ensures InRange(f) ==> Clamp(f) == f
  {
  }

  /** `as u16`: values outside the type saturate. */
  function SaturateU16(v: int): nat {
    if v < 0 then 0 else if v > U16_MAX then U16_MAX else v
  }

  /** `((length as f32) * ratio).round() as u16`; NaN converts to 0. */
  function FirstLength(length: nat, ratio: Float): nat {
    match ratio
    case Finite(r) => SaturateU16(Rounded(length as real, r))
    case Infinity(positive) => if positive && length > 0 then U16_MAX else 0
    case NaN => 0
  }

  function Times(length: real, r: real): real {
    length * r
  }

  /** `round()`: half away from zero, on the nonnegative products a split computes. */
  function Rounded(length: real, r: real): int {
    (Times(length, r) + 0.5).Floor
  }

  lemma FloorGap(low: real, high: real, gap: nat)
    requires low <= high <= low + gap as real
    ensures low.Floor <= high.Floor <= low.Floor + gap
  {
    assert high < (low.Floor + gap + 1) as real;
  }

  lemma ProductGap(a: real, gap: real, r: real)
    requires 0.0 <= r <= 1.0 && 0.0 <= gap
    ensures Times(a, r) <= Times(a + gap, r) <= Times(a, r) + gap
  {
    assert (a + gap) * r == a * r + gap * r;
    assert 0.0 <= gap * r <= gap;
  }

  lemma RoundedGap(a: real, b: real, gap: nat, r: real)
    requires 0.0 <= r <= 1.0 && b == a + gap as real
    ensures Rounded(a, r) <= Rounded(b, r) <= Rounded(a, r) + gap
  {
    ProductGap(a, gap as real, r);
    hide Times;
    FloorGap(Times(a, r) + 0.5, Times(b, r) + 0.5, gap);
  }

  lemma RoundedFacts(small: nat, gap: nat, r: real)
    requires 0.0 <= r <= 1.0
    ensures 0 <= Rounded(small as real, r) <= small
    ensures Rounded(small as real, r) <= Rounded((small + gap) as real, r) <= Rounded(small as real, r) + gap
  {
    RoundedGap(0.0, small as real, small, r);
    assert Rounded(0.0, r) == 0;
    hide Rounded;
    RoundedGap(small as real, (small + gap) as real, gap, r);
  }

  lemma FirstLengthBounds(length: nat, ratio: Float)
    requires Unit(ratio)
    ensures FirstLength(length, ratio) <= length
  {
    if ratio.Finite? {
      RoundedFacts(length, 0, ratio.value);
    }
  }

  /** Both parts of a split grow with the length, so the first grows by at most one per cell. */
  lemma FirstLengthMonotone(small: nat, large: nat, ratio: Float)
    requires Unit(ratio) && small <= large <= U16_MAX
    ensures FirstLength(small, ratio) <= FirstLength(large, ratio)
    ensures small - FirstLength(small, ratio) <= large - FirstLength(large, ratio)
  {
    if ratio.Finite? {
      RoundedFacts(small, large - small, ratio.value);
      RoundedFacts(large, 0, ratio.value);
    }
  }

  /** The first part is the whole number nearest to its exact share, a tie going up, as far as `u16` reaches. */
  lemma FirstLengthIsNearest(length: nat, r: real)
    ensures var (share, first) := (length as real * r, FirstLength(length, Finite(r)));
            && (0.0 <= share < 65535.5 ==> first as real - 0.5 <= share < first as real + 0.5)
            && (share < 0.0 ==> first == 0)
            && (65535.5 <= share ==> first == 65535)
  {
    assert Times(length as real, r) == length as real * r;
    hide Times;
  }

  /** Ratios that are not numbers: NaN leaves everything to the second part, infinities saturate. */
  lemma FirstLengthOfNonNumbers(length: nat)
    ensures FirstLength(length, NaN) == 0 && FirstLength(length, Infinity(false)) == 0
    ensures FirstLength(length, Infinity(true)) == if length == 0 then 0 else 65535
  {
  }

  /** A larger ratio never gives the first part less. */
  lemma FirstLengthMonotoneInRatio(length: nat, low: Float, high: Float)
    requires low.Finite? && high.Finite? && low.value <= high.value
    ensures FirstLength(length, low) <= FirstLength(length, high)
  {
    assert Times(length as real, low.value) <= Times(length as real, high.value);
  }

  datatype Direction = Horizontal | Vertical

  function Other(d: Direction): Direction {
    if d.Horizontal? then Vertical else Horizontal
  }

  datatype Rect = Rect(x: nat, y: nat, width: nat, height: nat) {
    /** The extent `[Lo, Hi)` along an axis: columns for `Horizontal`, rows for `Vertical`. */
    function Lo(d: Direction): nat { if d.Horizontal? then x else y }
    function Length(d: Direction): nat { if d.Horizontal? then width else height }
    function Hi(d: Direction): nat { Lo(d) + Length(d) }

    predicate Covers(cx: int, cy: int) {
      x <= cx < x + width && y <= cy < y + height
    }

    predicate Within(outer: Rect) {
      forall d: Direction :: outer.Lo(d) <= Lo(d) && Hi(d) <= outer.Hi(d)
    }

    /** No coordinate of the rectangle leaves `u16`. */
    predicate Fits() {
      forall d: Direction :: Hi(d) <= U16_MAX
    }

    predicate NoSmallerThan(other: Rect) {
      forall d: Direction :: other.Length(d) <= Length(d)
    }
  }

  /** `split_rect`. */
  function SplitRect(area: Rect, direction: Direction, ratio: Float): (Rect, Rect) {
    match direction
    case Horizontal =>
      var first := FirstLength(area.width, ratio);
      var second := if area.width < first then 0 else area.width - first;
      (Rect(area.x, area.y, first, area.height),
       Rect(area.x + first, area.y, second, area.height))
    case Vertical =>
      var first := FirstLength(area.height, ratio);
      var second := if area.height < first then 0 else area.height - first;
      (Rect(area.x, area.y, area.width, first),
       Rect(area.x, area.y + first, area.width, second))
  }

  /** The two parts abut along the split axis and keep the whole extent across it. */
  lemma SplitRectParts(area: Rect, d: Direction, ratio: Float)
    requires Unit(ratio)
    ensures var (a, b) := SplitRect(area, d, ratio);
            && a.Lo(d) == area.Lo(d) && a.Hi(d) == b.Lo(d) && b.Hi(d) == area.Hi(d)
            && a.Lo(Other(d)) == area.Lo(Other(d)) && a.Hi(Other(d)) == area.Hi(Other(d))
            && b.Lo(Other(d)) == area.Lo(Other(d)) && b.Hi(Other(d)) == area.Hi(Other(d))
            && a.Within(area) && b.Within(area)
  {
    FirstLengthBounds(area.Length(d), ratio);
    var (a, b) := SplitRect(area, d, ratio);
    forall e: Direction
      ensures area.Lo(e) <= a.Lo(e) && a.Hi(e) <= area.Hi(e)
      ensures area.Lo(e) <= b.Lo(e) && b.Hi(e) <= area.Hi(e)
    {
      assert e == d || e == Other(d);
    }
  }

  lemma SplitRectMonotone(small: Rect, large: Rect, d: Direction, ratio: Float)
    requires Unit(ratio) && large.NoSmallerThan(small) && large.Fits()
    ensures SplitRect(large, d, ratio).0.NoSmallerThan(SplitRect(small, d, ratio).0)
    ensures SplitRect(large, d, ratio).1.NoSmallerThan(SplitRect(small, d, ratio).1)
  {
    assert large.Hi(d) <= U16_MAX;
    FirstLengthMonotone(small.Length(d), large.Length(d), ratio);
    FirstLengthBounds(small.Length(d), ratio);
    FirstLengthBounds(large.Length(d), ratio);
    forall e: Direction
      ensures SplitRect(small, d, ratio).0.Length(e) <= SplitRect(large, d, ratio).0.Length(e)
      ensures SplitRect(small, d, ratio).1.Length(e) <= SplitRect(large, d, ratio).1.Length(e)
    {
      assert small.Length(e) <= large.Length(e);
    }
  }

  lemma WithinTransitive(a: Rect, b: Rect, c: Rect)
    requires a.Within(b) && b.Within(c)
    ensures a.Within(c)
  {
    forall d: Direction
      ensures c.Lo(d) <= a.Lo(d) && a.Hi(d) <= c.Hi(d)
    {
      assert b.Lo(d) <= a.Lo(d) && a.Hi(d) <= b.Hi(d);
    }
  }

  lemma CoversOuter(inner: Rect, outer: Rect, x: int, y: int)
    requires inner.Within(outer) && inner.Covers(x, y)
    ensures outer.Covers(x, y)
  {
    assert outer.Lo(Horizontal) <= inner.Lo(Horizontal) && inner.Hi(Horizontal) <= outer.Hi(Horizontal);
    assert outer.Lo(Vertical) <= inner.Lo(Vertical) && inner.Hi(Vertical) <= outer.Hi(Vertical);
  }

  lemma WithinFits(a: Rect, b: Rect)
    requires a.Within(b) && b.Fits()
    ensures a.Fits()
  {
    forall d: Direction
      ensures a.Hi(d) <= U16_MAX
    {
      assert a.Hi(d) <= b.Hi(d);
    }
  }
}
