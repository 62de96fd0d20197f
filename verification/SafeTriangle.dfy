/**
 The "safe triangle" that holds back hovers while the cursor travels toward a side panel.

 Coordinates are reals.  The cross-product test is related to two plain descriptions of the
 triangle: convex combinations of its corners, and the cone that spreads 80 points up and down
 by the time it reaches the panel's near edge.
 */
module SafeTriangles {
  import opened Wrappers

  datatype Point = Point(x: real, y: real)

  // Edges belong to the rectangle.
  datatype Rect = Rect(minX: real, minY: real, maxX: real, maxY: real) {
    predicate Contains(p: Point) {
      minX <= p.x <= maxX && minY <= p.y <= maxY
    }
  }

  const VERTICAL_PADDING := 80.0
  const MIN_MOVEMENT_SQUARED := 4.0

  // ----- the triangle test -----

  function CrossSign(p: Point, v1: Point, v2: Point): real {
    (v2.x - v1.x) * (p.y - v1.y) - (v2.y - v1.y) * (p.x - v1.x)
  }

  predicate PointInTriangle(p: Point, a: Point, b: Point, c: Point) {
    var d1, d2, d3 := CrossSign(p, a, b), CrossSign(p, b, c), CrossSign(p, c, a);
    var hasNeg := d1 < 0.0 || d2 < 0.0 || d3 < 0.0;
    var hasPos := d1 > 0.0 || d2 > 0.0 || d3 > 0.0;
    !(hasNeg && hasPos)
  }

  // p is the combination of the corners with these weights.
  ghost predicate IsBlend(p: Point, a: Point, b: Point, c: Point, u: real, v: real, w: real) {
    && u >= 0.0 && v >= 0.0 && w >= 0.0 && u + v + w == 1.0
    && p.x == u * a.x + v * b.x + w * c.x
    && p.y == u * a.y + v * b.y + w * c.y
  }

  ghost predicate InHull(p: Point, a: Point, b: Point, c: Point) {
    exists u: real, v: real, w: real :: IsBlend(p, a, b, c, u, v, w)
  }

  // The signs of a blend are its weights times the triangle's signed double area.
  lemma BlendCross(p: Point, a: Point, b: Point, c: Point, u: real, v: real, w: real)
    requires u + v + w == 1.0
    requires p.x == u * a.x + v * b.x + w * c.x && p.y == u * a.y + v * b.y + w * c.y
    ensures CrossSign(p, a, b) == w * CrossSign(c, a, b)
    ensures CrossSign(p, b, c) == u * CrossSign(c, a, b)
    ensures CrossSign(p, c, a) == v * CrossSign(c, a, b)
  {
    assert u == 1.0 - v - w;
    assert p.x - a.x == v * (b.x - a.x) + w * (c.x - a.x);
    assert p.y - a.y == v * (b.y - a.y) + w * (c.y - a.y);
    var bdx, bdy, cdx, cdy := b.x - a.x, b.y - a.y, c.x - a.x, c.y - a.y;
    assert CrossSign(p, a, b) == bdx * (v * bdy + w * cdy) - bdy * (v * bdx + w * cdx);
    assert CrossSign(p, b, c) == (cdx - bdx) * (v * bdy + w * cdy - bdy) - (cdy - bdy) * (v * bdx + w * cdx - bdx);
    assert CrossSign(p, c, a) == -cdx * (v * bdy + w * cdy - cdy) + cdy * (v * bdx + w * cdx - cdx);
  }

  // In a non-degenerate triangle every point has weights: its signs over the double area.
  lemma WeightsOf(p: Point, a: Point, b: Point, c: Point) returns (u: real, v: real, w: real)
    requires CrossSign(c, a, b) != 0.0
    ensures u + v + w == 1.0
    ensures p.x == u * a.x + v * b.x + w * c.x && p.y == u * a.y + v * b.y + w * c.y
  {
    var area := CrossSign(c, a, b);
    var bdx, bdy, cdx, cdy, pdx, pdy := b.x - a.x, b.y - a.y, c.x - a.x, c.y - a.y, p.x - a.x, p.y - a.y;
    assert area == bdx * cdy - bdy * cdx;
    v, w := (pdx * cdy - pdy * cdx) / area, (bdx * pdy - bdy * pdx) / area;
    u := 1.0 - v - w;
    assert v * area == pdx * cdy - pdy * cdx && w * area == bdx * pdy - bdy * pdx;
    assert (v * bdx + w * cdx) * area == bdx * (v * area) + cdx * (w * area);
    assert bdx * (pdx * cdy - pdy * cdx) + cdx * (bdx * pdy - bdy * pdx) == pdx * area;
    assert (v * bdy + w * cdy) * area == bdy * (v * area) + cdy * (w * area);
    assert bdy * (pdx * cdy - pdy * cdx) + cdy * (bdx * pdy - bdy * pdx) == pdy * area;
    CancelFactor(v * bdx + w * cdx, pdx, area);
    CancelFactor(v * bdy + w * cdy, pdy, area);
    Recentre(v, w, a.x, b.x, c.x);
    Recentre(v, w, a.y, b.y, c.y);
  }

  lemma Recentre(v: real, w: real, a: real, b: real, c: real)
    ensures (1.0 - v - w) * a + v * b + w * c == a + (v * (b - a) + w * (c - a))
  {
  }

  lemma CancelFactor(s: real, t: real, d: real)
    requires d != 0.0 && s * d == t * d
    ensures s == t
  {
    assert (s - t) * d == 0.0;
  }

  lemma SignOfProduct(u: real, d: real)
    ensures d > 0.0 ==> (u * d < 0.0 <==> u < 0.0) && (u * d > 0.0 <==> u > 0.0)
    ensures d < 0.0 ==> (u * d < 0.0 <==> u > 0.0) && (u * d > 0.0 <==> u < 0.0)
  {
  }

  // With these weights the point passes the test exactly when none of them is negative.
  lemma BlendTest(p: Point, a: Point, b: Point, c: Point, u: real, v: real, w: real)
    requires CrossSign(c, a, b) != 0.0 && u + v + w == 1.0
    requires p.x == u * a.x + v * b.x + w * c.x && p.y == u * a.y + v * b.y + w * c.y
    ensures PointInTriangle(p, a, b, c) <==> IsBlend(p, a, b, c, u, v, w)
  {
    var area := CrossSign(c, a, b);
    BlendCross(p, a, b, c, u, v, w);
    SignOfProduct(u, area);
    SignOfProduct(v, area);
    SignOfProduct(w, area);
  }

  /** The sign test holds exactly for the convex combinations of the corners of a non-degenerate
      triangle, whichever way round the corners are given. */
  lemma PointInTriangleIsHull(p: Point, a: Point, b: Point, c: Point)
    requires CrossSign(c, a, b) != 0.0
    ensures PointInTriangle(p, a, b, c) <==> InHull(p, a, b, c)
  {
    var u, v, w := WeightsOf(p, a, b, c);
    BlendTest(p, a, b, c, u, v, w);
    if InHull(p, a, b, c) {
      var u', v', w' :| IsBlend(p, a, b, c, u', v', w');
      BlendTest(p, a, b, c, u', v', w');
    }
  }

  // ----- the triangle that the filter builds -----

  function NearX(target: Rect, apex: Point): real {
    if apex.x < (target.minX + target.maxX) / 2.0 then target.minX else target.maxX
  }

  predicate InSafeTriangle(p: Point, apex: Point, nearX: real) {
    PointInTriangle(p, apex, Point(nearX, apex.y - VERTICAL_PADDING), Point(nearX, apex.y + VERTICAL_PADDING))
  }

  function Abs(r: real): real {
    if r < 0.0 then -r else r
  }

  // t runs from 0 at the apex to 1 at the near edge; the cone is 80 * t points tall each way.
  ghost predicate InCone(p: Point, apex: Point, nearX: real)
    requires nearX != apex.x
  {
    var t := (p.x - apex.x) / (nearX - apex.x);
    0.0 <= t <= 1.0 && Abs(p.y - apex.y) <= VERTICAL_PADDING * t
  }

  lemma SafeTriangleSigns(p: Point, apex: Point, nearX: real)
    ensures var dx, dy, w := p.x - apex.x, p.y - apex.y, nearX - apex.x;
            var b, c := Point(nearX, apex.y - VERTICAL_PADDING), Point(nearX, apex.y + VERTICAL_PADDING);
            && CrossSign(p, apex, b) == w * dy + 80.0 * dx
            && CrossSign(p, b, c) == 160.0 * (w - dx)
            && CrossSign(p, c, apex) == 80.0 * dx - w * dy
  {
    var w, dy := nearX - apex.x, p.y - apex.y;
    assert (apex.x - nearX) * (p.y - (apex.y + 80.0)) == -(w * dy) + 80.0 * w;
  }

  /** The filter's triangle is the cone, when the near edge is not at the apex's own x; when it
      is, the triangle has no area and the sign test accepts the whole vertical line through it. */
  lemma SafeTriangleIsCone(p: Point, apex: Point, nearX: real)
    ensures nearX != apex.x ==> (InSafeTriangle(p, apex, nearX) <==> InCone(p, apex, nearX))
    ensures nearX == apex.x ==> (InSafeTriangle(p, apex, nearX) <==> p.x == apex.x)
  {
    var dx, dy, w := p.x - apex.x, p.y - apex.y, nearX - apex.x;
    SafeTriangleSigns(p, apex, nearX);
    if w != 0.0 {
      var t := dx / w;
      assert t * w == dx;
      var d1, d2, d3 := w * dy + 80.0 * dx, 160.0 * (w - dx), 80.0 * dx - w * dy;
      assert d1 == (dy + 80.0 * t) * w;
      assert d2 == 160.0 * (1.0 - t) * w;
      assert d3 == (80.0 * t - dy) * w;
      ConeSigns(d1, d2, d3, dy + 80.0 * t, 160.0 * (1.0 - t), 80.0 * t - dy, w);
      assert InCone(p, apex, nearX) <==> 0.0 <= t <= 1.0 && Abs(dy) <= 80.0 * t;
    } else {
      assert w * dy == 0.0;
    }
  }

  // Three numbers whose scaled signs do not clash, and that cannot all be non-positive.
  lemma ConeSigns(d1: real, d2: real, d3: real, r: real, s: real, t: real, w: real)
    requires w != 0.0 && r + s + t == 160.0
    requires d1 == r * w && d2 == s * w && d3 == t * w
    ensures !((d1 < 0.0 || d2 < 0.0 || d3 < 0.0) && (d1 > 0.0 || d2 > 0.0 || d3 > 0.0))
            <==> r >= 0.0 && s >= 0.0 && t >= 0.0
  {
    SignOfProduct(r, w);
    SignOfProduct(s, w);
    SignOfProduct(t, w);
  }

  // ----- the filter -----

  datatype State = State(target: Option<Rect>, last: Option<Point>, suppressing: bool)

  function DistanceSquared(p: Point, q: Point): real {
    (p.x - q.x) * (p.x - q.x) + (p.y - q.y) * (p.y - q.y)
  }

  function ShouldSuppress(st: State, p: Point): (State, bool) {
    if st.target.None? || st.last.None? then (st.(suppressing := false), false)
    else if st.target.value.Contains(st.last.value) then (st.(suppressing := false), false)
    else if DistanceSquared(p, st.last.value) < MIN_MOVEMENT_SQUARED then (st, st.suppressing)
    else
      var inside := InSafeTriangle(p, st.last.value, NearX(st.target.value, st.last.value));
      (st.(suppressing := inside), inside)
  }

  function SetTarget(st: State, rect: Option<Rect>): State {
    if rect.None? then State(None, None, false) else st.(target := rect)
  }

  // A leaf hover at p: drop it, or let it through and remember where it was.
  function Hover(st: State, p: Point): (State, bool) {
    var (st', suppressed) := ShouldSuppress(st, p);
    (if suppressed then st' else st'.(last := Some(p)), suppressed)
  }

  // There is a target, and the last accepted position is outside it.
  predicate Armed(st: State) {
    st.target.Some? && st.last.Some? && !st.target.value.Contains(st.last.value)
  }

  predicate InTriangleOf(st: State, p: Point)
    requires Armed(st)
  {
    InSafeTriangle(p, st.last.value, NearX(st.target.value, st.last.value))
  }

  class SafeTriangle {
    var targetRect: Option<Rect>
    var lastPosition: Option<Point>
    var isSuppressing: bool

    function Value(): State
      reads this
    {
      State(targetRect, lastPosition, isSuppressing)
    }

    constructor ()
      ensures Value() == State(None, None, false)
    {
      targetRect, lastPosition, isSuppressing := None, None, false;
    }

    method SetTargetRect(rect: Option<Rect>)
      modifies this
      ensures Value() == SetTarget(old(Value()), rect)
    {
      targetRect := rect;
      if rect.None? {
        lastPosition := None;
        isSuppressing := false;
      }
    }

    method ShouldSuppressHover(newPosition: Point) returns (suppress: bool)
      modifies this
      ensures (Value(), suppress) == ShouldSuppress(old(Value()), newPosition)
    {
      if targetRect.None? || lastPosition.None? {
        isSuppressing := false;
        return false;
      }
      var target, lastPos := targetRect.value, lastPosition.value;
      if target.Contains(lastPos) {
        isSuppressing := false;
        return false;
      }
      var diffX, diffY := newPosition.x - lastPos.x, newPosition.y - lastPos.y;
      if diffX * diffX + diffY * diffY < MIN_MOVEMENT_SQUARED {
        return isSuppressing;
      }
      var centerX := (target.minX + target.maxX) / 2.0;
      var nearX := if lastPos.x < centerX then target.minX else target.maxX;
      var cornerA := Point(nearX, lastPos.y - VERTICAL_PADDING);
      var cornerB := Point(nearX, lastPos.y + VERTICAL_PADDING);
      isSuppressing := PointInTriangle(newPosition, lastPos, cornerA, cornerB);
      return isSuppressing;
    }

    method UpdatePosition(position: Point)
      modifies this
      ensures Value() == old(Value()).(last := Some(position))
    {
      lastPosition := Some(position);
    }
  }

  // ----- what the filter lets through -----

  // p is on the way from a to the vertical line at x = edge, inside a cone 80 points tall each way
  // when it gets there.
  predicate OnTheWay(p: Point, a: Point, edge: real) {
    && (a.x <= p.x <= edge || edge <= p.x <= a.x)
    && Abs(p.y - a.y) * Abs(edge - a.x) <= 80.0 * Abs(p.x - a.x)
  }

  lemma AbsOfProduct(x: real, y: real)
    ensures Abs(x) * Abs(y) == Abs(x * y)
  {
    assert -x * y == -(x * y) && x * -y == -(x * y) && -x * -y == x * y;
  }

  // The three signs of `SafeTriangleSigns`, with m for the product w * dy.
  lemma SignsAreBounds(dx: real, m: real, w: real)
    ensures var d1, d2, d3 := m + 80.0 * dx, 160.0 * (w - dx), 80.0 * dx - m;
            w != 0.0 ==>
              (!((d1 < 0.0 || d2 < 0.0 || d3 < 0.0) && (d1 > 0.0 || d2 > 0.0 || d3 > 0.0))
               <==> (0.0 <= dx <= w || w <= dx <= 0.0) && Abs(m) <= 80.0 * Abs(dx))
  {
  }

  lemma TriangleIsTheWay(p: Point, a: Point, edge: real)
    ensures InSafeTriangle(p, a, edge) <==> OnTheWay(p, a, edge)
  {
    var dx, dy, w := p.x - a.x, p.y - a.y, edge - a.x;
    SafeTriangleIsCone(p, a, edge);
    SafeTriangleSigns(p, a, edge);
    SignsAreBounds(dx, w * dy, w);
    AbsOfProduct(dy, w);
    assert dy * w == w * dy;
    assert w == 0.0 ==> Abs(dy) * Abs(w) == 0.0;
  }

  // A move of at least 2 points from outside the panel.
  lemma FarMoveHeldIff(r: Rect, a: Point, suppressing: bool, p: Point)
    requires !r.Contains(a) && DistanceSquared(p, a) >= 4.0
    ensures var (st, held) := Hover(State(Some(r), Some(a), suppressing), p);
            && (held <==> OnTheWay(p, a, NearX(r, a)))
            && st == State(Some(r), Some(if held then a else p), held)
  {
    TriangleIsTheWay(p, a, NearX(r, a));
  }

  lemma NearMoveOrInside(r: Rect, a: Point, suppressing: bool, p: Point)
    requires r.Contains(a) || DistanceSquared(p, a) < 4.0
    ensures var (st, held) := Hover(State(Some(r), Some(a), suppressing), p);
            && held == (suppressing && !r.Contains(a))
            && st == State(Some(r), Some(if held then a else p), held)
  {
  }

  // From outside, the nearer vertical edge, and the way to it without absolute values.
  lemma FacingEdge(r: Rect, a: Point, p: Point)
    requires r.minX <= r.maxX
    ensures NearX(r, a) == if Abs(a.x - r.minX) < Abs(a.x - r.maxX) then r.minX else r.maxX
    ensures a.x < r.minX ==>
              && NearX(r, a) == r.minX
              && (OnTheWay(p, a, r.minX) <==>
                    a.x <= p.x <= r.minX && Abs(p.y - a.y) * (r.minX - a.x) <= 80.0 * (p.x - a.x))
    ensures r.maxX < a.x ==>
              && NearX(r, a) == r.maxX
              && (OnTheWay(p, a, r.maxX) <==>
                    r.maxX <= p.x <= a.x && Abs(p.y - a.y) * (a.x - r.maxX) <= 80.0 * (a.x - p.x))
  {
  }

  /** The filter's answer to a move from the last accepted position a, told from the panel's edges:
      a move out of the panel passes, one of less than 2 points is treated like the move before it,
      and any other is held back exactly when it is on the way to the nearer vertical edge (the
      right one when both are as near).  From the left of the panel that is the left edge, and from
      the right the right edge.  A passed move becomes the next starting position; a held-back one
      does not. */
  lemma HeldBackIff(r: Rect, a: Point, suppressing: bool, p: Point)
    requires r.minX <= r.maxX
    ensures var (st, held) := Hover(State(Some(r), Some(a), suppressing), p);
            var inside := r.minX <= a.x <= r.maxX && r.minY <= a.y <= r.maxY;
            var small := (p.x - a.x) * (p.x - a.x) + (p.y - a.y) * (p.y - a.y) < 4.0;
            var nearer := if Abs(a.x - r.minX) < Abs(a.x - r.maxX) then r.minX else r.maxX;
            && (inside ==> !held)
            && (!inside && small ==> held == suppressing)
            && (!inside && !small ==> (held <==> OnTheWay(p, a, nearer)))
            && (!inside && !small && a.x < r.minX ==>
                  (held <==> a.x <= p.x <= r.minX && Abs(p.y - a.y) * (r.minX - a.x) <= 80.0 * (p.x - a.x)))
            && (!inside && !small && r.maxX < a.x ==>
                  (held <==> r.maxX <= p.x <= a.x && Abs(p.y - a.y) * (a.x - r.maxX) <= 80.0 * (a.x - p.x)))
            && st == State(Some(r), Some(if held then a else p), held)
  {
    var squared := (p.x - a.x) * (p.x - a.x) + (p.y - a.y) * (p.y - a.y);
    assert squared == DistanceSquared(p, a);
    FacingEdge(r, a, p);
    if r.Contains(a) || squared < 4.0 {
      NearMoveOrInside(r, a, suppressing, p);
    } else {
      FarMoveHeldIff(r, a, suppressing, p);
    }
  }

  /** Clearing the target lets every hover through, and so does the first hover after a new target
      is set; setting a target keeps the position that moves are measured from. */
  lemma ClearedTargetHoldsNothing(st: State, rect: Rect, p: Point)
    ensures Hover(SetTarget(st, None), p) == (State(None, Some(p), false), false)
    ensures Hover(SetTarget(SetTarget(st, None), Some(rect)), p) == (State(Some(rect), Some(p), false), false)
    ensures SetTarget(st, Some(rect)) == State(Some(rect), st.last, st.suppressing)
  {
  }

  /** A straight vertical move of at least 2 points is held back exactly when the cursor's last
      accepted position was outside the panel but level with its near edge's x: only there does
      the triangle collapse onto the vertical line. */
  lemma VerticalMoveSuppressedIff(st: State, p: Point)
    requires st.last.Some? && p.x == st.last.value.x && Abs(p.y - st.last.value.y) >= 2.0
    ensures ShouldSuppress(st, p).1 <==> Armed(st) && NearX(st.target.value, st.last.value) == st.last.value.x
  {
    if Armed(st) {
      var dy := p.y - st.last.value.y;
      assert Abs(dy) * Abs(dy) >= 2.0 * 2.0 && Abs(dy) * Abs(dy) == dy * dy;
      SafeTriangleIsCone(p, st.last.value, NearX(st.target.value, st.last.value));
    }
  }

  // A cursor above the panel, level with its left edge, is held back however far up it moves.
  lemma VerticalMoveCanBeSuppressed()
    ensures ShouldSuppress(State(Some(Rect(200.0, 50.0, 300.0, 250.0)), Some(Point(200.0, 20.0)), false),
                           Point(200.0, 0.0)).1
  {
  }

  /** Every hover that is held back is within 2 points of the last accepted position or in the
      one triangle (the cone, unless it is degenerate) at that position. */
  lemma SuppressedIsNearOrInside(st: State, p: Point)
    requires ShouldSuppress(st, p).1
    ensures Armed(st)
    ensures DistanceSquared(p, st.last.value) < MIN_MOVEMENT_SQUARED || InTriangleOf(st, p)
    ensures !st.suppressing ==> InTriangleOf(st, p)
  {
  }

  /** Every hover that could be held back next lies in the triangle exactly when no suppression
      is being carried over: otherwise a small move away from the panel is held back too. */
  lemma FirstSuppressedIsInsideIff(st: State)
    requires st.suppressing ==> st.target.Some? && st.last.Some?
    ensures (forall p :: ShouldSuppress(st, p).1 ==> Armed(st) && InTriangleOf(st, p)) <==>
            !(Armed(st) && st.suppressing)
  {
    if Armed(st) && st.suppressing {
      var apex, nearX := st.last.value, NearX(st.target.value, st.last.value);
      var away := Point(if nearX > apex.x then apex.x - 1.0 else apex.x + 1.0, apex.y);
      assert ShouldSuppress(st, away).1;
      SafeTriangleIsCone(away, apex, nearX);
      if nearX != apex.x {
        SignOfProduct((away.x - apex.x) / (nearX - apex.x), nearX - apex.x);
      }
      assert !InTriangleOf(st, away);
    }
  }

  // Moving the target while hovers are being held back carries the suppression over to it.
  lemma RetargetCarriesSuppression()
    ensures var right, left := Rect(200.0, 50.0, 300.0, 250.0), Rect(-300.0, 50.0, -200.0, 250.0);
            var st := Hover(State(Some(right), Some(Point(100.0, 150.0)), false), Point(150.0, 140.0));
            var moved := SetTarget(st.0, Some(left));
            var p := Point(101.0, 150.0);
            st.1 && Hover(moved, p).1 && Armed(moved) && !InTriangleOf(moved, p)
  {
    var right := Rect(200.0, 50.0, 300.0, 250.0);
    SafeTriangleIsCone(Point(150.0, 140.0), Point(100.0, 150.0), 200.0);
    SafeTriangleIsCone(Point(101.0, 150.0), Point(100.0, 150.0), -200.0);
  }
}
