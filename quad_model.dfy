/**
 * The state of a PR-quadtree node (class `Node` of quadtree/quad.py) as a
 * value, and what `construct_subtree`, `insert_subtree` and
 * `query_range_subtree` do to it. The class `QuadTree.Node` keeps one of these
 * values as its ghost model and is proved to change it as these functions say.
 */
module QuadModel {
  import opened Wrappers
  import opened QuadGeometry

  /** `BUCKET_SIZE`: the most points a leaf built by `construct_subtree` holds. */
  const BUCKET_SIZE: nat := 1

  /**
   * A node: its square, its bucket (`points`, `None` until it is made a
   * leaf) and its children, which are either all missing or all present.
   */
  datatype QT = QT(square: Rectangle, bucket: Option<set<Point>>, kids: Kids)

  /** The children `ne`, `nw`, `sw`, `se`. */
  datatype Kids = NoKids | Four(ne: QT, nw: QT, sw: QT, se: QT)

  /** What `insert_subtree` gives back: True, False, None, or the AttributeError of calling it on a missing child. */
  datatype InsertResult = Accepted | Rejected | FellThrough | NoChildren

  /** A fresh node as `Node(tree, quarter, square, parent)` makes it. */
  function NewNode(sq: Rectangle): QT
  {
    QT(sq, None, NoKids)
  }

  /** The points in the bucket, none if it is missing. */
  function BucketSet(t: QT): set<Point>
  {
    if t.bucket.Some? then t.bucket.value else {}
  }

  /** Every point held in a bucket of the subtree. */
  function Stored(t: QT): set<Point>
    decreases t, 1
  {
    BucketSet(t) + KidsStored(t)
  }

  /** Every point held in a bucket below the node. */
  function KidsStored(t: QT): set<Point>
    decreases t, 0
  {
    match t.kids
    case NoKids => {}
    case Four(a, b, c, d) => Stored(a) + Stored(b) + Stored(c) + Stored(d)
  }

  /** A node other than the root always has a bucket or children. */
  predicate Shaped(t: QT)
  {
    t.bucket.Some? || t.kids.Four?
  }

  /**
   * The invariant of a subtree: every bucketed point lies in its node's
   * square, and the children sit on the four quarters of their parent.
   */
  predicate Inv(t: QT)
  {
    (forall p :: p in BucketSet(t) ==> Contains(t.square, p)) &&
    match t.kids
    case NoKids => true
    case Four(a, b, c, d) =>
      a.square == QuarterRect(t.square, NE) && b.square == QuarterRect(t.square, NW) &&
      c.square == QuarterRect(t.square, SW) && d.square == QuarterRect(t.square, SE) &&
      Shaped(a) && Shaped(b) && Shaped(c) && Shaped(d) &&
      Inv(a) && Inv(b) && Inv(c) && Inv(d)
  }

  /** A quarter of `r` lies inside `r`: a point of the quarter is a point of `r`. */
  lemma QuarterInside(r: Rectangle, q: Quarter, p: Point)
    requires Contains(QuarterRect(r, q), p)
    ensures Contains(r, p)
  {
  }

  /** Under the invariant every point stored in the subtree lies in the node's square. */
  lemma {:induction false} StoredInSquare(t: QT)
    requires Inv(t)
    ensures forall p :: p in Stored(t) ==> Contains(t.square, p)
  {
    match t.kids
    case NoKids =>
    case Four(a, b, c, d) =>
      StoredInSquare(a);
      StoredInSquare(b);
      StoredInSquare(c);
      StoredInSquare(d);
      assert Stored(t) == BucketSet(t) + Stored(a) + Stored(b) + Stored(c) + Stored(d);
      forall p | p in Stored(t) ensures Contains(t.square, p) {
        if p in BucketSet(t) {}
        else if p in Stored(a) { QuarterInside(t.square, NE, p); }
        else if p in Stored(b) { QuarterInside(t.square, NW, p); }
        else if p in Stored(c) { QuarterInside(t.square, SW, p); }
        else if p in Stored(d) { QuarterInside(t.square, SE, p); }
      }
  }

  /* ------------------------------------------------------------ termination budget */

  function Abs(x: real): real
  {
    if x < 0.0 then -x else x
  }

  /** `2^n`. */
  function Pow2(n: nat): (r: real)
    ensures r >= 1.0
  {
    if n == 0 then 1.0 else 2.0 * Pow2(n - 1)
  }

  /** `2^n > n`. */
  lemma {:induction false} Pow2Exceeds(n: nat)
    ensures Pow2(n) >= (n + 1) as real
  {
    if n > 0 { Pow2Exceeds(n - 1); }
  }

  lemma {:induction false} Pow2Monotone(n: nat, m: nat)
    requires n <= m
    ensures Pow2(n) <= Pow2(m)
  {
    if n < m { Pow2Monotone(n, m - 1); }
  }

  /**
   * After `n` halvings of `sq`, the points `p` and `q` are further apart on
   * some axis than the side of the square then is, so no quarter holds both.
   */
  predicate Apart(p: Point, q: Point, sq: Rectangle, n: nat)
  {
    sq.maxX - sq.minX < Pow2(n) * Abs(p.0 - q.0) || sq.maxY - sq.minY < Pow2(n) * Abs(p.1 - q.1)
  }

  /**
   * The points lie in `sq`, and `n` halvings separate every two of them: the
   * number of levels `construct_subtree` can still descend.
   */
  predicate Separable(pts: set<Point>, sq: Rectangle, n: nat)
  {
    (forall p :: p in pts ==> Contains(sq, p)) &&
    forall p, q :: p in pts && q in pts && p != q ==> Apart(p, q, sq, n)
  }

  /** Two points of a square are never apart before any halving. */
  lemma {:induction false} SeparableNone(pts: set<Point>, sq: Rectangle)
    requires Separable(pts, sq, 0)
    ensures |pts| <= 1
  {
    if |pts| > 1 {
      var p :| p in pts;
      assert |pts - {p}| == |pts| - 1;
      var q :| q in pts - {p};
    }
  }

  lemma ApartMonotone(p: Point, q: Point, sq: Rectangle, n: nat, m: nat)
    requires Apart(p, q, sq, n) && n <= m
    ensures Apart(p, q, sq, m)
  {
    Pow2Monotone(n, m);
    assert Pow2(n) * Abs(p.0 - q.0) <= Pow2(m) * Abs(p.0 - q.0);
    assert Pow2(n) * Abs(p.1 - q.1) <= Pow2(m) * Abs(p.1 - q.1);
  }

  /** `x < (f + 1) * d` when `f` is the floor of `x / d` and `d > 0`. */
  lemma BelowNextMultiple(x: real, d: real, f: int)
    requires d > 0.0 && f == (x / d).Floor
    ensures x < (f + 1) as real * d
  {
    assert x / d < (f + 1) as real;
    assert (x / d) * d == x;
  }

  /** Enough halvings to bring a side of length `w` below a positive distance `d`. */
  lemma AxisBudget(w: real, d: real) returns (n: nat)
    requires d > 0.0
    ensures w < Pow2(n) * d
  {
    var f := (w / d).Floor;
    BelowNextMultiple(w, d, f);
    if f < 0 {
      n := 0;
      assert (f + 1) as real * d <= 0.0;
    } else {
      n := f + 1;
      Pow2Exceeds(n);
      var g := Pow2(n);
      assert (f + 1) as real <= g;
      assert (f + 1) as real * d <= g * d;
    }
  }

  /** Enough halvings to separate two distinct points. */
  lemma PairBudget(p: Point, q: Point, sq: Rectangle) returns (n: nat)
    requires p != q
    ensures Apart(p, q, sq, n)
  {
    if p.0 != q.0 {
      n := AxisBudget(sq.maxX - sq.minX, Abs(p.0 - q.0));
    } else {
      n := AxisBudget(sq.maxY - sq.minY, Abs(p.1 - q.1));
    }
  }

  /** Enough halvings to separate `x` from every other point of `s`. */
  lemma {:induction false} PointBudget(x: Point, s: set<Point>, sq: Rectangle) returns (n: nat)
    ensures forall q :: q in s && q != x ==> Apart(x, q, sq, n) && Apart(q, x, sq, n)
    decreases s
  {
    if s == {} {
      n := 0;
    } else {
      var y :| y in s;
      var a := PointBudget(x, s - {y}, sq);
      var b := 0;
      if y != x {
        b := PairBudget(x, y, sq);
      }
      n := if a < b then b else a;
      forall q | q in s && q != x ensures Apart(x, q, sq, n) && Apart(q, x, sq, n) {
        if q == y {
          ApartMonotone(x, q, sq, b, n);
        } else {
          ApartMonotone(x, q, sq, a, n);
          ApartMonotone(q, x, sq, a, n);
        }
        assert Abs(x.0 - q.0) == Abs(q.0 - x.0) && Abs(x.1 - q.1) == Abs(q.1 - x.1);
      }
    }
  }

  /**
   * Every finite set of distinct points of a square is separated after some
   * number of halvings, so `construct_subtree` on a set always terminates.
   */
  lemma {:induction false} BudgetFor(pts: set<Point>, sq: Rectangle) returns (n: nat)
    requires forall p :: p in pts ==> Contains(sq, p)
    ensures Separable(pts, sq, n)
    decreases pts
  {
    if pts == {} {
      n := 0;
    } else {
      var x :| x in pts;
      var a := BudgetFor(pts - {x}, sq);
      var b := PointBudget(x, pts, sq);
      n := if a < b then b else a;
      forall p, q | p in pts && q in pts && p != q ensures Apart(p, q, sq, n) {
        if p == x || q == x {
          ApartMonotone(p, q, sq, b, n);
        } else {
          ApartMonotone(p, q, sq, a, n);
        }
      }
    }
  }

  lemma BudgetExists(pts: set<Point>, sq: Rectangle)
    requires forall p :: p in pts ==> Contains(sq, p)
    ensures exists n: nat :: Separable(pts, sq, n)
  {
    var n := BudgetFor(pts, sq);
  }

  /** The halvings needed to separate `pts`: some number that suffices. */
  ghost function Budget(pts: set<Point>, sq: Rectangle): (n: nat)
    requires forall p :: p in pts ==> Contains(sq, p)
    ensures Separable(pts, sq, n)
  {
    BudgetExists(pts, sq);
    var n: nat :| Separable(pts, sq, n);
    n
  }

  /** The points `set_partition` files under quarter `q` of `sq` are separated by one halving fewer. */
  lemma SeparableQuarter(pts: set<Point>, sq: Rectangle, n: nat, q: Quarter)
    requires Separable(pts, sq, n)
    ensures InQuarter(pts, MedX(sq), MedY(sq), q) <= pts
    ensures Separable(InQuarter(pts, MedX(sq), MedY(sq), q), QuarterRect(sq, q), if n > 0 then n - 1 else 0)
  {
    var sub, child := InQuarter(pts, MedX(sq), MedY(sq), q), QuarterRect(sq, q);
    forall p | p in sub ensures Contains(child, p) {
      QuadrantInQuarter(sq, p);
    }
    if n == 0 {
      SeparableNone(pts, sq);
      forall p, r | p in sub && r in sub ensures p == r {
        if p != r {
          assert |{p, r}| == 2 && {p, r} <= pts;
          SubsetCard({p, r}, pts);
        }
      }
    } else {
      assert child.maxX - child.minX == (sq.maxX - sq.minX) / 2.0;
      assert child.maxY - child.minY == (sq.maxY - sq.minY) / 2.0;
      forall p, r | p in sub && r in sub && p != r ensures Apart(p, r, child, n - 1) {
        ApartHalf(p, r, sq, child, n);
      }
    }
  }

  /** Points apart after `n` halvings of a square are apart after `n - 1` halvings of a half-size one. */
  lemma ApartHalf(p: Point, q: Point, sq: Rectangle, half: Rectangle, n: nat)
    requires Apart(p, q, sq, n) && n > 0
    requires half.maxX - half.minX == (sq.maxX - sq.minX) / 2.0
    requires half.maxY - half.minY == (sq.maxY - sq.minY) / 2.0
    ensures Apart(p, q, half, n - 1)
  {
    assert Pow2(n) == 2.0 * Pow2(n - 1);
  }

  lemma {:induction false} SubsetCard(a: set<Point>, b: set<Point>)
    requires a <= b
    ensures |a| <= |b|
    decreases a
  {
    if a != {} {
      var x :| x in a;
      SubsetCard(a - {x}, b - {x});
    }
  }

  /* ------------------------------------------------------------ construct_subtree */

  /**
   * `len(points)` for a collection holding the point set `pts`: the root
   * is built from a list, which may repeat points; below the root the
   * collections are sets.
   */
  predicate CountFits(pts: set<Point>, count: nat)
  {
    |pts| <= count && (count == 0 <==> pts == {})
  }

  /**
   * `t.construct_subtree(points, forced)` with `count == len(points)`. With at
   * most `BUCKET_SIZE` points and not forced, the node keeps them as its
   * bucket (its children stay as they were). Otherwise it gets four new
   * children on the quarters of its square, each built from the points
   * `set_partition` files under its quarter; the bucket is left as it was.
   * `n` bounds the depth of the recursion.
   */
  ghost function Construct(t: QT, pts: set<Point>, count: nat, forced: bool, n: nat): (r: QT)
    requires Separable(pts, t.square, n) && CountFits(pts, count)
    ensures r.square == t.square
    decreases n, if forced || count > BUCKET_SIZE then 1 else 0, 1
  {
    if count <= BUCKET_SIZE && !forced then t.(bucket := Some(pts))
    else
      t.(kids := Four(Child(t.square, pts, n, NE), Child(t.square, pts, n, NW),
                      Child(t.square, pts, n, SW), Child(t.square, pts, n, SE)))
  }

  /** The new child on quarter `q` of `sq`, built from the points of `pts` filed under `q`. */
  ghost function Child(sq: Rectangle, pts: set<Point>, n: nat, q: Quarter): (r: QT)
    requires Separable(pts, sq, n)
    ensures r.square == QuarterRect(sq, q)
    decreases n, 1, 0
  {
    var sub := InQuarter(pts, MedX(sq), MedY(sq), q);
    SeparableQuarter(pts, sq, n, q);
    SmallQuarters(pts, sq, n);
    Construct(NewNode(QuarterRect(sq, q)), sub, |sub|, false, if n > 0 then n - 1 else 0)
  }

  /** With no halving left, each quarter receives at most one point. */
  lemma SmallQuarters(pts: set<Point>, sq: Rectangle, n: nat)
    requires Separable(pts, sq, n)
    ensures n == 0 ==> forall q :: |InQuarter(pts, MedX(sq), MedY(sq), q)| <= 1
  {
    if n == 0 {
      SeparableNone(pts, sq);
      forall q ensures |InQuarter(pts, MedX(sq), MedY(sq), q)| <= 1 {
        SubsetCard(InQuarter(pts, MedX(sq), MedY(sq), q), pts);
      }
    }
  }

  /**
   * What a build stores: a kept bucket holds exactly the points (beside
   * whatever the node's old children hold); a split spreads them over the new
   * children, none lost and none added, while the node's old bucket stays.
   */
  lemma {:induction false} ConstructStores(t: QT, pts: set<Point>, count: nat, forced: bool, n: nat)
    requires Separable(pts, t.square, n) && CountFits(pts, count)
    ensures Stored(Construct(t, pts, count, forced, n)) ==
            if count <= BUCKET_SIZE && !forced then pts + KidsStored(t) else BucketSet(t) + pts
    decreases n, if forced || count > BUCKET_SIZE then 1 else 0, 2
  {
    var r := Construct(t, pts, count, forced, n);
    if count <= BUCKET_SIZE && !forced {
      assert KidsStored(r) == KidsStored(t);
    } else {
      assert r == t.(kids := Four(Child(t.square, pts, n, NE), Child(t.square, pts, n, NW),
                                  Child(t.square, pts, n, SW), Child(t.square, pts, n, SE)));
      SplitStores(t, pts, n);
    }
  }

  /** The four children built from `pts` store exactly `pts`, beside the node's old bucket. */
  lemma {:induction false} SplitStores(t: QT, pts: set<Point>, n: nat)
    requires Separable(pts, t.square, n)
    ensures Stored(t.(kids := Four(Child(t.square, pts, n, NE), Child(t.square, pts, n, NW),
                                   Child(t.square, pts, n, SW), Child(t.square, pts, n, SE))))
            == BucketSet(t) + pts
    decreases n, 1, 1
  {
    var a, b, c, d := Child(t.square, pts, n, NE), Child(t.square, pts, n, NW),
                      Child(t.square, pts, n, SW), Child(t.square, pts, n, SE);
    ChildStores(t.square, pts, n, NE);
    ChildStores(t.square, pts, n, NW);
    ChildStores(t.square, pts, n, SW);
    ChildStores(t.square, pts, n, SE);
    PartitionIsPartition(pts, MedX(t.square), MedY(t.square));
    calc {
      Stored(t.(kids := Four(a, b, c, d)));
      BucketSet(t) + (Stored(a) + Stored(b) + Stored(c) + Stored(d));
      BucketSet(t) + pts;
    }
  }

  /** The child on quarter `q` stores exactly the points filed under `q`. */
  lemma {:induction false} ChildStores(sq: Rectangle, pts: set<Point>, n: nat, q: Quarter)
    requires Separable(pts, sq, n)
    ensures Stored(Child(sq, pts, n, q)) == InQuarter(pts, MedX(sq), MedY(sq), q)
    decreases n, 1, 0
  {
    var sub := InQuarter(pts, MedX(sq), MedY(sq), q);
    SeparableQuarter(pts, sq, n, q);
    SmallQuarters(pts, sq, n);
    ConstructStores(NewNode(QuarterRect(sq, q)), sub, |sub|, false, if n > 0 then n - 1 else 0);
  }

  /** A build keeps the invariant, and leaves the node with a bucket or children. */
  lemma {:induction false} ConstructInv(t: QT, pts: set<Point>, count: nat, forced: bool, n: nat)
    requires Separable(pts, t.square, n) && CountFits(pts, count) && Inv(t)
    ensures Inv(Construct(t, pts, count, forced, n)) && Shaped(Construct(t, pts, count, forced, n))
    decreases n, if forced || count > BUCKET_SIZE then 1 else 0, 1
  {
    if !(count <= BUCKET_SIZE && !forced) {
      ChildInv(t.square, pts, n, NE);
      ChildInv(t.square, pts, n, NW);
      ChildInv(t.square, pts, n, SW);
      ChildInv(t.square, pts, n, SE);
    }
  }

  lemma {:induction false} ChildInv(sq: Rectangle, pts: set<Point>, n: nat, q: Quarter)
    requires Separable(pts, sq, n)
    ensures Inv(Child(sq, pts, n, q)) && Shaped(Child(sq, pts, n, q))
    decreases n, 1, 0
  {
    var sub := InQuarter(pts, MedX(sq), MedY(sq), q);
    SeparableQuarter(pts, sq, n, q);
    SmallQuarters(pts, sq, n);
    ConstructInv(NewNode(QuarterRect(sq, q)), sub, |sub|, false, if n > 0 then n - 1 else 0);
  }

  /** Every bucket of the subtree holds at most `BUCKET_SIZE` points. */
  predicate SmallBuckets(t: QT)
  {
    |BucketSet(t)| <= BUCKET_SIZE &&
    match t.kids
    case NoKids => true
    case Four(a, b, c, d) => SmallBuckets(a) && SmallBuckets(b) && SmallBuckets(c) && SmallBuckets(d)
  }

  /** Building a fresh node from a set (not forced) leaves at most `BUCKET_SIZE` points in every leaf. */
  lemma {:induction false} FreshBuildSmall(sq: Rectangle, pts: set<Point>, n: nat)
    requires Separable(pts, sq, n)
    ensures SmallBuckets(Construct(NewNode(sq), pts, |pts|, false, n))
    ensures Clean(Construct(NewNode(sq), pts, |pts|, false, n))
    decreases n, if |pts| > BUCKET_SIZE then 1 else 0, 1
  {
    if |pts| > BUCKET_SIZE {
      ChildSmall(sq, pts, n, NE);
      ChildSmall(sq, pts, n, NW);
      ChildSmall(sq, pts, n, SW);
      ChildSmall(sq, pts, n, SE);
    }
  }

  /**
   * What `Quad(points)` builds: a fresh node given the points, with `count`
   * their number in the list, repeats included. It stores exactly those
   * points, no bucket holds more than `BUCKET_SIZE` of them, and no node has
   * both a bucket and children.
   */
  lemma FreshBuild(sq: Rectangle, pts: set<Point>, count: nat, n: nat)
    requires Separable(pts, sq, n) && CountFits(pts, count)
    ensures Stored(Construct(NewNode(sq), pts, count, false, n)) == pts
    ensures SmallBuckets(Construct(NewNode(sq), pts, count, false, n))
    ensures Clean(Construct(NewNode(sq), pts, count, false, n))
    ensures Construct(NewNode(sq), pts, count, false, n).kids.NoKids? <==> count <= BUCKET_SIZE
    ensures Construct(NewNode(sq), pts, count, false, n).bucket.Some? <==> count <= BUCKET_SIZE
  {
    ConstructStores(NewNode(sq), pts, count, false, n);
    if count > BUCKET_SIZE {
      ChildSmall(sq, pts, n, NE);
      ChildSmall(sq, pts, n, NW);
      ChildSmall(sq, pts, n, SW);
      ChildSmall(sq, pts, n, SE);
    }
  }

  lemma {:induction false} ChildSmall(sq: Rectangle, pts: set<Point>, n: nat, q: Quarter)
    requires Separable(pts, sq, n)
    ensures SmallBuckets(Child(sq, pts, n, q)) && Clean(Child(sq, pts, n, q))
    decreases n, 1, 0
  {
    var sub := InQuarter(pts, MedX(sq), MedY(sq), q);
    SeparableQuarter(pts, sq, n, q);
    SmallQuarters(pts, sq, n);
    FreshBuildSmall(QuarterRect(sq, q), sub, if n > 0 then n - 1 else 0);
  }

  /* ------------------------------------------------------------ insert_subtree */

  /**
   * `t.insert_subtree(p)` where `isRoot` says whether `t` is the tree's root
   * (which is never a leaf for `is_leaf`). A point outside the square is
   * refused. A leaf with room adds it to its bucket; a full leaf is rebuilt
   * from a copy of its bucket plus the point. Any other node passes the point
   * to its children in the order NE, NW, SE, SW until one accepts; with no
   * children the call fails, and if none accepts it falls through.
   */
  ghost function Insert(t: QT, p: Point, isRoot: bool): (r: (QT, InsertResult))
    requires Inv(t)
    ensures r.0.square == t.square
    decreases t
  {
    if !Contains(t.square, p) then (t, Rejected)
    else if t.bucket.Some? && !isRoot then
      if |t.bucket.value| < BUCKET_SIZE then (t.(bucket := Some(t.bucket.value + {p})), Accepted)
      else
        var add := t.bucket.value + {p};
        (Construct(t, add, |add|, false, Budget(add, t.square)), Accepted)
    else
      match t.kids
      case NoKids => (t, NoChildren)
      case Four(a, b, c, d) =>
        var (a', ra) := Insert(a, p, false);
        if ra != Rejected && ra != FellThrough then (t.(kids := Four(a', b, c, d)), ra)
        else
          var (b', rb) := Insert(b, p, false);
          if rb != Rejected && rb != FellThrough then (t.(kids := Four(a', b', c, d)), rb)
          else
            var (d', rd) := Insert(d, p, false);
            if rd != Rejected && rd != FellThrough then (t.(kids := Four(a', b', c, d')), rd)
            else
              var (c', rc) := Insert(c, p, false);
              if rc != Rejected && rc != FellThrough then (t.(kids := Four(a', b', c', d')), rc)
              else (t.(kids := Four(a', b', c', d')), FellThrough)
  }

  /** A refused point changes nothing: a subtree answering False or None is left as it was. */
  lemma {:induction false} InsertRefusedUnchanged(t: QT, p: Point, isRoot: bool)
    requires Inv(t)
    ensures Insert(t, p, isRoot).1 in {Rejected, FellThrough, NoChildren} ==> Insert(t, p, isRoot).0 == t
    ensures !Contains(t.square, p) ==> Insert(t, p, isRoot) == (t, Rejected)
    decreases t
  {
    if Contains(t.square, p) && !(t.bucket.Some? && !isRoot) && t.kids.Four? {
      var Four(a, b, c, d) := t.kids;
      InsertRefusedUnchanged(a, p, false);
      InsertRefusedUnchanged(b, p, false);
      InsertRefusedUnchanged(c, p, false);
      InsertRefusedUnchanged(d, p, false);
    }
  }

  /** The square contains the point exactly when one of its quarters does. */
  lemma QuartersCover(r: Rectangle, p: Point)
    requires Contains(r, p)
    ensures Contains(QuarterRect(r, NE), p) || Contains(QuarterRect(r, NW), p) ||
            Contains(QuarterRect(r, SE), p) || Contains(QuarterRect(r, SW), p)
  {
    QuadrantInQuarter(r, p);
  }

  /** A child whose square misses the point refuses it and stays as it was. */
  lemma Outside(t: QT, p: Point)
    requires Inv(t) && !Contains(t.square, p)
    ensures Insert(t, p, false) == (t, Rejected)
  {
  }

  /**
   * The outcome of an insertion: False outside the square; inside it, True,
   * except at a root that has no children (one built from at most one
   * point), where the call fails. It never falls through.
   */
  lemma {:induction false} InsertOutcome(t: QT, p: Point, isRoot: bool)
    requires Inv(t) && (!isRoot ==> Shaped(t))
    ensures Insert(t, p, isRoot).1 ==
            if !Contains(t.square, p) then Rejected
            else if isRoot && t.kids.NoKids? then NoChildren
            else Accepted
    decreases t
  {
    if Contains(t.square, p) && !(t.bucket.Some? && !isRoot) && t.kids.Four? {
      var Four(a, b, c, d) := t.kids;
      QuartersCover(t.square, p);
      var r := Insert(t, p, isRoot).1;
      if Contains(a.square, p) {
        InsertOutcome(a, p, false);
        assert r == Insert(a, p, false).1;
      } else if Contains(b.square, p) {
        Outside(a, p);
        InsertOutcome(b, p, false);
        assert r == Insert(b, p, false).1;
      } else if Contains(d.square, p) {
        Outside(a, p);
        Outside(b, p);
        InsertOutcome(d, p, false);
        assert r == Insert(d, p, false).1;
      } else {
        Outside(a, p);
        Outside(b, p);
        Outside(d, p);
        InsertOutcome(c, p, false);
        assert r == Insert(c, p, false).1;
      }
    }
  }

  /** An accepted point is stored afterwards, and the invariant still holds. */
  lemma {:induction false} InsertStores(t: QT, p: Point, isRoot: bool)
    requires Inv(t)
    ensures Inv(Insert(t, p, isRoot).0)
    ensures Shaped(t) ==> Shaped(Insert(t, p, isRoot).0)
    ensures Insert(t, p, isRoot).1 == Accepted ==> p in Stored(Insert(t, p, isRoot).0)
    decreases t, 1
  {
    if !Contains(t.square, p) {
    } else if t.bucket.Some? && !isRoot {
      LeafInsertStores(t, p);
    } else if t.kids.Four? {
      var Four(a, b, c, d) := t.kids;
      ChildInsert(a, p);
      ChildInsert(b, p);
      ChildInsert(c, p);
      ChildInsert(d, p);
      KidsInsertStores(t, p, isRoot);
    }
  }

  /** What an insertion into a child does, as far as its parent needs to know. */
  ghost predicate InsertedWell(x: QT, p: Point)
    requires Inv(x)
  {
    var (x', r) := Insert(x, p, false);
    Inv(x') && (Shaped(x) ==> Shaped(x')) && (r == Accepted ==> p in Stored(x')) &&
    (r in {Rejected, FellThrough, NoChildren} ==> x' == x)
  }

  lemma ChildInsert(x: QT, p: Point)
    requires Inv(x)
    ensures InsertedWell(x, p)
    decreases x, 2
  {
    InsertStores(x, p, false);
    InsertRefusedUnchanged(x, p, false);
  }

  /** Passing the point down to the children stores it and keeps the invariant. */
  lemma KidsInsertStores(t: QT, p: Point, isRoot: bool)
    requires Inv(t) && Contains(t.square, p) && !(t.bucket.Some? && !isRoot) && t.kids.Four?
    requires InsertedWell(t.kids.ne, p) && InsertedWell(t.kids.nw, p)
    requires InsertedWell(t.kids.sw, p) && InsertedWell(t.kids.se, p)
    ensures Inv(Insert(t, p, isRoot).0)
    ensures Shaped(t) ==> Shaped(Insert(t, p, isRoot).0)
    ensures Insert(t, p, isRoot).1 == Accepted ==> p in Stored(Insert(t, p, isRoot).0)
  {
    var Four(a, b, c, d) := t.kids;
    var (a', ra) := Insert(a, p, false);
    var (b', rb) := Insert(b, p, false);
    var (d', rd) := Insert(d, p, false);
    var (c', rc) := Insert(c, p, false);
    var r := Insert(t, p, isRoot);
    if ra != Rejected && ra != FellThrough {
      assert r == (t.(kids := Four(a', b, c, d)), ra);
      KidsInv(t, a', b, c, d);
    } else if rb != Rejected && rb != FellThrough {
      assert r == (t.(kids := Four(a', b', c, d)), rb);
      KidsInv(t, a', b', c, d);
    } else if rd != Rejected && rd != FellThrough {
      assert r == (t.(kids := Four(a', b', c, d')), rd);
      KidsInv(t, a', b', c, d');
    } else {
      assert r.0 == t.(kids := Four(a', b', c', d'));
      KidsInv(t, a', b', c', d');
    }
  }

  /** Insertion into a leaf stores the point and keeps the invariant. */
  lemma LeafInsertStores(t: QT, p: Point)
    requires Inv(t) && t.bucket.Some? && Contains(t.square, p)
    ensures Insert(t, p, false).1 == Accepted
    ensures Inv(Insert(t, p, false).0) && Shaped(Insert(t, p, false).0)
    ensures p in Stored(Insert(t, p, false).0)
  {
    var add := t.bucket.value + {p};
    if |t.bucket.value| < BUCKET_SIZE {
      assert Insert(t, p, false).0 == t.(bucket := Some(add));
      assert KidsStored(t.(bucket := Some(add))) == KidsStored(t);
    } else {
      var n := Budget(add, t.square);
      assert Insert(t, p, false).0 == Construct(t, add, |add|, false, n);
      ConstructStores(t, add, |add|, false, n);
      ConstructInv(t, add, |add|, false, n);
    }
  }

  /** Replacing the children by ones on the same squares that keep the invariant keeps it. */
  lemma KidsInv(t: QT, a: QT, b: QT, c: QT, d: QT)
    requires Inv(t) && t.kids.Four?
    requires a.square == t.kids.ne.square && b.square == t.kids.nw.square
    requires c.square == t.kids.sw.square && d.square == t.kids.se.square
    requires Inv(a) && Inv(b) && Inv(c) && Inv(d)
    requires Shaped(a) && Shaped(b) && Shaped(c) && Shaped(d)
    ensures Inv(t.(kids := Four(a, b, c, d)))
  {
  }

  /**
   * Inserting a new point into a full leaf that already has children (a leaf
   * split by an earlier insertion keeps its one-point bucket) rebuilds the
   * children from that bucket and the point alone: whatever else the old
   * children stored is gone.
   */
  lemma StaleLeafForgets(t: QT, p: Point)
    requires Inv(t) && t.bucket.Some? && |t.bucket.value| >= BUCKET_SIZE
    requires Contains(t.square, p) && p !in t.bucket.value
    ensures Insert(t, p, false).1 == Accepted
    ensures Stored(Insert(t, p, false).0) == t.bucket.value + {p}
  {
    var add := t.bucket.value + {p};
    assert |add| == |t.bucket.value| + 1;
    ConstructStores(t, add, |add|, false, Budget(add, t.square));
  }

  /**
   * No node of the subtree has both a bucket and children. A fresh build is
   * clean (`FreshBuild`); an insertion into a full leaf is not, because the
   * split leaves the old bucket in place.
   */
  predicate Clean(t: QT)
  {
    !(t.bucket.Some? && t.kids.Four?) &&
    match t.kids
    case NoKids => true
    case Four(a, b, c, d) => Clean(a) && Clean(b) && Clean(c) && Clean(d)
  }

  /** On a clean tree an accepted insertion stores exactly one point more: nothing stored before is lost. */
  lemma {:induction false} CleanInsertKeeps(t: QT, p: Point, isRoot: bool)
    requires Inv(t) && Clean(t)
    ensures Insert(t, p, isRoot).1 == Accepted ==> Stored(Insert(t, p, isRoot).0) == Stored(t) + {p}
    decreases t
  {
    if !Contains(t.square, p) {
    } else if t.bucket.Some? && !isRoot {
      CleanLeafInsertKeeps(t, p);
    } else if t.kids.Four? {
      var Four(a, b, c, d) := t.kids;
      InsertRefusedUnchanged(a, p, false);
      InsertRefusedUnchanged(b, p, false);
      InsertRefusedUnchanged(d, p, false);
      CleanInsertKeeps(a, p, false);
      CleanInsertKeeps(b, p, false);
      CleanInsertKeeps(d, p, false);
      CleanInsertKeeps(c, p, false);
      KidsInsertKeeps(t, p, isRoot);
    }
  }

  /** An accepted insertion into `x` adds `p` to what `x` stores and nothing else. */
  ghost predicate InsertKeeps(x: QT, p: Point)
    requires Inv(x)
  {
    Insert(x, p, false).1 == Accepted ==> Stored(Insert(x, p, false).0) == Stored(x) + {p}
  }

  /** A child that refuses the point, or lets it fall through, is left as it was. */
  ghost predicate RefusedSame(x: QT, p: Point)
    requires Inv(x)
  {
    Insert(x, p, false).1 in {Rejected, FellThrough} ==> Insert(x, p, false).0 == x
  }

  /** A leaf without children gains the point and keeps its bucket, split or not. */
  lemma CleanLeafInsertKeeps(t: QT, p: Point)
    requires Inv(t) && Clean(t) && t.bucket.Some? && Contains(t.square, p)
    ensures Stored(Insert(t, p, false).0) == Stored(t) + {p}
  {
    var add := t.bucket.value + {p};
    if |t.bucket.value| < BUCKET_SIZE {
      assert Insert(t, p, false).0 == t.(bucket := Some(add));
    } else {
      var n := Budget(add, t.square);
      assert Insert(t, p, false).0 == Construct(t, add, |add|, false, n);
      ConstructStores(t, add, |add|, false, n);
    }
  }

  /** Four sets of which one gains `p` and the others stay: their union with `b` gains `p`. */
  lemma OneGains(b: set<Point>, n: set<Point>, w: set<Point>, s: set<Point>, e: set<Point>,
                 n': set<Point>, w': set<Point>, s': set<Point>, e': set<Point>, p: Point)
    requires (n' == n + {p} && w' == w && s' == s && e' == e) || (n' == n && w' == w + {p} && s' == s && e' == e) ||
             (n' == n && w' == w && s' == s + {p} && e' == e) || (n' == n && w' == w && s' == s && e' == e + {p})
    ensures b + (n' + w' + s' + e') == b + (n + w + s + e) + {p}
  {
  }

  /** Passing the point to children that each keep what they store keeps what the node stores. */
  lemma KidsInsertKeeps(t: QT, p: Point, isRoot: bool)
    requires Inv(t) && Contains(t.square, p) && !(t.bucket.Some? && !isRoot) && t.kids.Four?
    requires RefusedSame(t.kids.ne, p) && RefusedSame(t.kids.nw, p) && RefusedSame(t.kids.se, p)
    requires InsertKeeps(t.kids.ne, p) && InsertKeeps(t.kids.nw, p)
    requires InsertKeeps(t.kids.sw, p) && InsertKeeps(t.kids.se, p)
    ensures Insert(t, p, isRoot).1 == Accepted ==> Stored(Insert(t, p, isRoot).0) == Stored(t) + {p}
  {
    var Four(a, b, c, d) := t.kids;
    var (a', ra) := Insert(a, p, false);
    var (b', rb) := Insert(b, p, false);
    var r := Insert(t, p, isRoot);
    var B := BucketSet(t);
    if r.1 == Accepted {
      if ra != Rejected && ra != FellThrough {
        assert Stored(t) == B + (Stored(a) + Stored(b) + Stored(c) + Stored(d));
        assert r.0 == t.(kids := Four(a', b, c, d));
        OneGains(B, Stored(a), Stored(b), Stored(c), Stored(d), Stored(a'), Stored(b), Stored(c), Stored(d), p);
      } else if rb != Rejected && rb != FellThrough {
        assert Stored(t) == B + (Stored(a) + Stored(b) + Stored(c) + Stored(d));
        assert r.0 == t.(kids := Four(a', b', c, d));
        OneGains(B, Stored(a), Stored(b), Stored(c), Stored(d), Stored(a'), Stored(b'), Stored(c), Stored(d), p);
      } else {
        LateKidsInsertKeeps(t, p, isRoot);
      }
    }
  }

  /** The same, once NE and NW have both refused the point: SE or SW takes it. */
  lemma LateKidsInsertKeeps(t: QT, p: Point, isRoot: bool)
    requires Inv(t) && Contains(t.square, p) && !(t.bucket.Some? && !isRoot) && t.kids.Four?
    requires Insert(t.kids.ne, p, false).1 in {Rejected, FellThrough} && Insert(t.kids.ne, p, false).0 == t.kids.ne
    requires Insert(t.kids.nw, p, false).1 in {Rejected, FellThrough} && Insert(t.kids.nw, p, false).0 == t.kids.nw
    requires RefusedSame(t.kids.se, p)
    requires InsertKeeps(t.kids.sw, p) && InsertKeeps(t.kids.se, p)
    ensures Insert(t, p, isRoot).1 == Accepted ==> Stored(Insert(t, p, isRoot).0) == Stored(t) + {p}
  {
    var Four(a, b, c, d) := t.kids;
    var (d', rd) := Insert(d, p, false);
    var (c', rc) := Insert(c, p, false);
    var r := Insert(t, p, isRoot);
    var B := BucketSet(t);
    if r.1 == Accepted {
      assert Stored(t) == B + (Stored(a) + Stored(b) + Stored(c) + Stored(d));
      if rd != Rejected && rd != FellThrough {
        assert r.0 == t.(kids := Four(a, b, c, d'));
        OneGains(B, Stored(a), Stored(b), Stored(c), Stored(d), Stored(a), Stored(b), Stored(c), Stored(d'), p);
      } else {
        assert r.0 == t.(kids := Four(a, b, c', d'));
        OneGains(B, Stored(a), Stored(b), Stored(c), Stored(d), Stored(a), Stored(b), Stored(c'), Stored(d'), p);
      }
    }
  }

  /**
   * Two insertions into a full leaf: the first splits the leaf and is stored,
   * but leaves the node unclean; the second finds the old bucket still in
   * place, rebuilds the node from that bucket alone and loses the first point.
   */
  lemma SecondInsertForgetsFirst(t: QT, p: Point, q: Point)
    requires Inv(t) && t.bucket.Some? && |t.bucket.value| >= BUCKET_SIZE
    requires Contains(t.square, p) && Contains(t.square, q)
    requires p !in t.bucket.value && q !in t.bucket.value && p != q
    ensures Insert(t, p, false).1 == Accepted && p in Stored(Insert(t, p, false).0)
    ensures Inv(Insert(t, p, false).0) && !Clean(Insert(t, p, false).0)
    ensures Insert(Insert(t, p, false).0, q, false).1 == Accepted
    ensures p !in Stored(Insert(Insert(t, p, false).0, q, false).0)
  {
    var add := t.bucket.value + {p};
    assert |add| == |t.bucket.value| + 1;
    var t1 := Insert(t, p, false).0;
    assert t1 == Construct(t, add, |add|, false, Budget(add, t.square));
    assert t1.bucket == t.bucket && t1.kids.Four?;
    StaleLeafForgets(t, p);
    InsertStores(t, p, false);
    StaleLeafForgets(t1, q);
  }

  /* ------------------------------------------------------------ query_range_subtree */

  /** The bucket's points that `range` contains. */
  function BucketHits(t: QT, range: Rectangle): set<Point>
  {
    set p | p in BucketSet(t) && Contains(range, p)
  }

  /**
   * `t.query_range_subtree(range)`: nothing if the node's square does not
   * intersect `range`; otherwise the bucket's points in `range` and the
   * answers of the children.
   */
  function Query(t: QT, range: Rectangle): set<Point>
  {
    if !Intersects(t.square, range) then {}
    else
      BucketHits(t, range) +
      match t.kids
      case NoKids => {}
      case Four(a, b, c, d) => Query(a, range) + Query(b, range) + Query(c, range) + Query(d, range)
  }

  /** A query returns only stored points that `range` contains. */
  lemma {:induction false} QuerySound(t: QT, range: Rectangle)
    ensures forall p :: p in Query(t, range) ==> p in Stored(t) && Contains(range, p)
  {
    match t.kids
    case NoKids =>
    case Four(a, b, c, d) =>
      QuerySound(a, range);
      QuerySound(b, range);
      QuerySound(c, range);
      QuerySound(d, range);
  }

  /** `p` lies strictly inside `range`, off its edges. */
  predicate StrictlyInside(range: Rectangle, p: Point)
  {
    range.minX < p.0 < range.maxX && range.minY < p.1 < range.maxY
  }

  /**
   * A query finds every stored point strictly inside `range`. (A stored point
   * on the edge of `range` can be missed, because `intersects` is strict:
   * see `EdgePointMissed`.)
   */
  lemma {:induction false} QueryComplete(t: QT, range: Rectangle)
    requires Inv(t)
    ensures forall p :: p in Stored(t) && StrictlyInside(range, p) ==> p in Query(t, range)
  {
    StoredInSquare(t);
    match t.kids
    case NoKids =>
    case Four(a, b, c, d) =>
      QueryComplete(a, range);
      QueryComplete(b, range);
      QueryComplete(c, range);
      QueryComplete(d, range);
  }

  /**
   * As written, a range whose left edge is the right edge of the node's
   * square is pruned at that node, so a stored point lying on that edge is
   * not reported although `range` contains it. The root square is the
   * tight bounding box of the points, so the points of largest x always
   * lie on such an edge.
   */
  lemma EdgePointMissed(t: QT, range: Rectangle, p: Point)
    requires p in Stored(t) && Contains(range, p)
    requires p.0 == t.square.maxX && range.minX == p.0
    ensures p !in Query(t, range)
  {
  }

  /** The closed test the query evidently means: the rectangles share a point, edges included. */
  predicate Touches(a: Rectangle, b: Rectangle)
  {
    a.minX <= b.maxX && a.maxX >= b.minX && a.minY <= b.maxY && a.maxY >= b.minY
  }

  /** `query_range_subtree` with the pruning test made closed. */
  function QueryClosed(t: QT, range: Rectangle): set<Point>
  {
    if !Touches(t.square, range) then {}
    else
      BucketHits(t, range) +
      match t.kids
      case NoKids => {}
      case Four(a, b, c, d) =>
        QueryClosed(a, range) + QueryClosed(b, range) + QueryClosed(c, range) + QueryClosed(d, range)
  }

  /** With the closed test a query returns exactly the stored points that `range` contains. */
  lemma {:induction false} QueryClosedExact(t: QT, range: Rectangle)
    requires Inv(t)
    ensures forall p :: p in QueryClosed(t, range) <==> p in Stored(t) && Contains(range, p)
  {
    StoredInSquare(t);
    match t.kids
    case NoKids =>
    case Four(a, b, c, d) =>
      QueryClosedExact(a, range);
      QueryClosedExact(b, range);
      QueryClosedExact(c, range);
      QueryClosedExact(d, range);
  }

  /** The closed query answers everything the query as written answers, and more only on edges. */
  lemma {:induction false} QueryClosedExtends(t: QT, range: Rectangle)
    requires Inv(t)
    ensures Query(t, range) <= QueryClosed(t, range)
    ensures forall p :: p in QueryClosed(t, range) && StrictlyInside(range, p) ==> p in Query(t, range)
  {
    QuerySound(t, range);
    QueryComplete(t, range);
    QueryClosedExact(t, range);
  }
}
