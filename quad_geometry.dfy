/**
 * The plane geometry of the PR-quadtree (quadtree/quad.py): axis-aligned
 * rectangles with their midpoints, quarters, point containment and
 * intersection, the four-way split of a point set at a midpoint
 * (`set_partition`) and the bounding box of a point list (`min_square`).
 */
module QuadGeometry {
  import opened Wrappers

  /** A point `(x, y)`: a Python pair of floats, modelled with reals. */
  type Point = (real, real)

  /** `Rectangle(min_x, min_y, max_x, max_y)`; never changed after it is made. */
  datatype Rectangle = Rectangle(minX: real, minY: real, maxX: real, maxY: real)

  /** The four quarters, in the source's enumeration order. */
  datatype Quarter = NE | NW | SW | SE

  /** `Rectangle.med_x`. */
  function MedX(r: Rectangle): (m: real)
    ensures r.minX <= r.maxX ==> r.minX <= m <= r.maxX
    ensures m - r.minX == r.maxX - m
  {
    (r.maxX + r.minX) / 2.0
  }

  /** `Rectangle.med_y`. */
  function MedY(r: Rectangle): (m: real)
    ensures r.minY <= r.maxY ==> r.minY <= m <= r.maxY
    ensures m - r.minY == r.maxY - m
  {
    (r.maxY + r.minY) / 2.0
  }

  /** `Rectangle.contains`: closed on all four sides. */
  predicate Contains(r: Rectangle, p: Point)
  {
    r.minX <= p.0 <= r.maxX && r.minY <= p.1 <= r.maxY
  }

  /** `Rectangle.intersects`: strict on all four sides, so rectangles that only touch do not intersect. */
  predicate Intersects(r: Rectangle, o: Rectangle)
  {
    r.minX < o.maxX && r.maxX > o.minX && r.minY < o.maxY && r.maxY > o.minY
  }

  /** The quarter `q` of `r`, as `rectangle_partition` builds it: all four meet at the midpoint. */
  function QuarterRect(r: Rectangle, q: Quarter): (s: Rectangle)
    ensures q == NE ==> s.minX == MedX(r) && s.minY == MedY(r) && s.maxX == r.maxX && s.maxY == r.maxY
    ensures q == NW ==> s.minX == r.minX && s.minY == MedY(r) && s.maxX == MedX(r) && s.maxY == r.maxY
    ensures q == SW ==> s.minX == r.minX && s.minY == r.minY && s.maxX == MedX(r) && s.maxY == MedY(r)
    ensures q == SE ==> s.minX == MedX(r) && s.minY == r.minY && s.maxX == r.maxX && s.maxY == MedY(r)
  {
    var mx, my := MedX(r), MedY(r);
    match q
    case NE => Rectangle(mx, my, r.maxX, r.maxY)
    case NW => Rectangle(r.minX, my, mx, r.maxY)
    case SW => Rectangle(r.minX, r.minY, mx, my)
    case SE => Rectangle(mx, r.minY, r.maxX, my)
  }

  /** `Rectangle.rectangle_partition`: the quarters NE, NW, SW, SE. */
  function RectanglePartition(r: Rectangle): (Rectangle, Rectangle, Rectangle, Rectangle)
  {
    (QuarterRect(r, NE), QuarterRect(r, NW), QuarterRect(r, SW), QuarterRect(r, SE))
  }

  /** Each quarter is half as wide and half as high as `r`, and lies inside it. */
  lemma QuarterHalves(r: Rectangle, q: Quarter)
    requires r.minX <= r.maxX && r.minY <= r.maxY
    ensures var s := QuarterRect(r, q);
      s.maxX - s.minX == (r.maxX - r.minX) / 2.0 && s.maxY - s.minY == (r.maxY - r.minY) / 2.0 &&
      r.minX <= s.minX <= s.maxX <= r.maxX && r.minY <= s.minY <= s.maxY <= r.maxY
  {
  }

  /** `intersects` does not depend on the order of its arguments. */
  lemma IntersectsSymmetric(r: Rectangle, o: Rectangle)
    ensures Intersects(r, o) <==> Intersects(o, r)
  {
  }

  /**
   * Two rectangles that meet along an edge do not intersect: the right edge
   * of one is the left edge of the other, or the top edge of one is the
   * bottom edge of the other.
   */
  lemma TouchingDisjoint(r: Rectangle, o: Rectangle)
    requires r.maxX == o.minX || r.maxY == o.minY
    ensures !Intersects(r, o) && !Intersects(o, r)
  {
  }

  /* ------------------------------------------------------------ set_partition */

  /**
   * The quarter `set_partition` files `p` under for the midpoint `(x, y)`:
   * east means `x < p.x` and north `y < p.y`, so a point on a midpoint line
   * goes west or south.
   */
  function QuadrantOf(p: Point, x: real, y: real): (q: Quarter)
    ensures q == NE <==> p.0 > x && p.1 > y
    ensures q == NW <==> p.0 <= x && p.1 > y
    ensures q == SW <==> p.0 <= x && p.1 <= y
    ensures q == SE <==> p.0 > x && p.1 <= y
  {
    if p.0 > x && p.1 > y then NE
    else if p.0 <= x && p.1 > y then NW
    else if p.0 <= x && p.1 <= y then SW
    else SE
  }

  /** The points of `s` that `set_partition` files under `q`. */
  ghost function InQuarter(s: set<Point>, x: real, y: real, q: Quarter): set<Point>
  {
    set p | p in s && QuadrantOf(p, x, y) == q
  }

  /**
   * `set_partition(points, x, y)`: one pass over the points, adding each to
   * the set of its quarter; a missing (`None`) collection gives four empty
   * sets.
   */
  method SetPartition(points: Option<set<Point>>, x: real, y: real)
    returns (ne: set<Point>, nw: set<Point>, sw: set<Point>, se: set<Point>)
    ensures points.None? ==> ne == {} && nw == {} && sw == {} && se == {}
    ensures points.Some? ==>
      ne == InQuarter(points.value, x, y, NE) && nw == InQuarter(points.value, x, y, NW) &&
      sw == InQuarter(points.value, x, y, SW) && se == InQuarter(points.value, x, y, SE)
  {
    ne, nw, sw, se := {}, {}, {}, {};
    if points.Some? {
      var rest := points.value;
      while rest != {}
        invariant rest <= points.value
        invariant ne == InQuarter(points.value - rest, x, y, NE)
        invariant nw == InQuarter(points.value - rest, x, y, NW)
        invariant sw == InQuarter(points.value - rest, x, y, SW)
        invariant se == InQuarter(points.value - rest, x, y, SE)
        decreases rest
      {
        var p :| p in rest;
        if p.0 > x && p.1 > y {
          ne := ne + {p};
        } else if p.0 <= x && p.1 > y {
          nw := nw + {p};
        } else if p.0 <= x && p.1 <= y {
          sw := sw + {p};
        } else if p.0 > x && p.1 <= y {
          se := se + {p};
        }
        rest := rest - {p};
      }
    }
  }

  /** The four parts are pairwise disjoint and together are exactly the input. */
  lemma PartitionIsPartition(s: set<Point>, x: real, y: real)
    ensures InQuarter(s, x, y, NE) + InQuarter(s, x, y, NW) + InQuarter(s, x, y, SW) + InQuarter(s, x, y, SE) == s
    ensures InQuarter(s, x, y, NE) !! InQuarter(s, x, y, NW) && InQuarter(s, x, y, NE) !! InQuarter(s, x, y, SW)
    ensures InQuarter(s, x, y, NE) !! InQuarter(s, x, y, SE) && InQuarter(s, x, y, NW) !! InQuarter(s, x, y, SW)
    ensures InQuarter(s, x, y, NW) !! InQuarter(s, x, y, SE) && InQuarter(s, x, y, SW) !! InQuarter(s, x, y, SE)
  {
    forall p | p in s ensures p in InQuarter(s, x, y, QuadrantOf(p, x, y)) {}
  }

  /** A point of `r` that `set_partition` files under `q` at `r`'s midpoint lies in the quarter `q` of `r`. */
  lemma QuadrantInQuarter(r: Rectangle, p: Point)
    requires Contains(r, p)
    ensures Contains(QuarterRect(r, QuadrantOf(p, MedX(r), MedY(r))), p)
  {
  }

  /**
   * The conventions of `set_partition` and of insertion disagree on the
   * midpoint lines: a point of `r` on the vertical midline above the centre
   * is filed under NW, yet the NE quarter (closed) also contains it.
   */
  lemma MidlineInTwoQuarters(r: Rectangle, p: Point)
    requires Contains(r, p) && p.0 == MedX(r) && p.1 > MedY(r)
    ensures QuadrantOf(p, MedX(r), MedY(r)) == NW
    ensures Contains(QuarterRect(r, NE), p) && Contains(QuarterRect(r, NW), p)
  {
  }

  /* ------------------------------------------------------------ min_square */

  /** The least x coordinate of a non-empty list. */
  function MinX(P: seq<Point>): (m: real)
    requires P != []
    ensures (exists p :: p in P && p.0 == m) && forall p :: p in P ==> m <= p.0
  {
    if |P| == 1 then P[0].0
    else
      var m := MinX(P[1..]);
      assert forall p :: p in P ==> p == P[0] || p in P[1..];
      if P[0].0 <= m then P[0].0 else m
  }

  function MaxX(P: seq<Point>): (m: real)
    requires P != []
    ensures (exists p :: p in P && p.0 == m) && forall p :: p in P ==> p.0 <= m
  {
    if |P| == 1 then P[0].0
    else
      var m := MaxX(P[1..]);
      assert forall p :: p in P ==> p == P[0] || p in P[1..];
      if P[0].0 >= m then P[0].0 else m
  }

  function MinY(P: seq<Point>): (m: real)
    requires P != []
    ensures (exists p :: p in P && p.1 == m) && forall p :: p in P ==> m <= p.1
  {
    if |P| == 1 then P[0].1
    else
      var m := MinY(P[1..]);
      assert forall p :: p in P ==> p == P[0] || p in P[1..];
      if P[0].1 <= m then P[0].1 else m
  }

  function MaxY(P: seq<Point>): (m: real)
    requires P != []
    ensures (exists p :: p in P && p.1 == m) && forall p :: p in P ==> p.1 <= m
  {
    if |P| == 1 then P[0].1
    else
      var m := MaxY(P[1..]);
      assert forall p :: p in P ==> p == P[0] || p in P[1..];
      if P[0].1 >= m then P[0].1 else m
  }

  /**
   * `min_square(points)`: the bounding box of the points, `None` for an empty
   * list (where `min` raises ValueError). It contains every point, and each
   * of its sides passes through a point of the list.
   */
  function MinSquare(P: seq<Point>): (r: Option<Rectangle>)
    ensures r.None? <==> P == []
    ensures r.Some? ==> forall p :: p in P ==> Contains(r.value, p)
    ensures r.Some? ==> (exists p :: p in P && p.0 == r.value.minX) && (exists p :: p in P && p.0 == r.value.maxX)
    ensures r.Some? ==> (exists p :: p in P && p.1 == r.value.minY) && (exists p :: p in P && p.1 == r.value.maxY)
  {
    if P == [] then None
    else Some(Rectangle(MinX(P), MinY(P), MaxX(P), MaxY(P)))
  }
}
