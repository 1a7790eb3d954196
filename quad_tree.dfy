/**
 * The PR-quadtree itself (classes `Node` and `Quad` of quadtree/quad.py):
 * nodes whose bucket and children are updated in place,
 * and the tree object whose `leaves` list grows as leaves are made. Each node
 * carries a ghost `QuadModel.QT` value, and each method is proved to change
 * it exactly as the functions of `QuadModel` say.
 */
module QuadTree {
  import opened Wrappers
  import opened QuadGeometry
  import opened QuadModel

  /**
   * The children `ne`, `nw`, `sw`, `se` of a node. The source keeps them in
   * four fields that are always all `None` or all set, and sets them
   * together; here they are one field.
   */
  datatype Links = Unlinked | Linked(ne: Node, nw: Node, sw: Node, se: Node)

  /** The models of the linked children, as the children of a `QuadModel.QT`. */
  ghost function KidModels(l: Links): Kids
    reads if l.Linked? then {l.ne, l.nw, l.sw, l.se} else {}
  {
    match l
    case Unlinked => NoKids
    case Linked(ne, nw, sw, se) => Four(ne.model, nw.model, sw.model, se.model)
  }

  class Node {
    const tree: Quad
    const square: Rectangle
    var links: Links
    /** The bucket: `None` until the node is made a leaf. */
    var points: Option<set<Point>>
    ghost var model: QT
    ghost var Repr: set<Node>

    /**
     * The node's fields agree with its model; its children own disjoint
     * parts of `Repr`, belong to the same tree and are valid in turn.
     */
    ghost predicate Valid()
      reads this, Repr
      decreases Repr
    {
      this in Repr && model.square == square && model.bucket == points &&
      (links.Linked? ==>
        links.ne in Repr && links.ne.Repr <= Repr && this !in links.ne.Repr && links.ne.tree == tree &&
        links.nw in Repr && links.nw.Repr <= Repr && this !in links.nw.Repr && links.nw.tree == tree &&
        links.sw in Repr && links.sw.Repr <= Repr && this !in links.sw.Repr && links.sw.tree == tree &&
        links.se in Repr && links.se.Repr <= Repr && this !in links.se.Repr && links.se.tree == tree &&
        links.ne.Repr !! links.nw.Repr && links.ne.Repr !! links.sw.Repr && links.ne.Repr !! links.se.Repr &&
        links.nw.Repr !! links.sw.Repr && links.nw.Repr !! links.se.Repr && links.sw.Repr !! links.se.Repr &&
        links.ne.Valid() && links.nw.Valid() && links.sw.Valid() && links.se.Valid()) &&
      model.kids == KidModels(links)
    }

    /** `Node(tree, quarter, square)`: no bucket and no children. */
    constructor (tree: Quad, square: Rectangle)
      ensures Valid() && Inv(model) && Repr == {this}
      ensures this.tree == tree && this.square == square && model == NewNode(square)
    {
      this.tree := tree;
      this.square := square;
      links := Unlinked;
      points := None;
      model := NewNode(square);
      Repr := {this};
    }

    /**
     * `is_leaf`: the node has a bucket and is not the tree's root. On a valid
     * node this is the leaf test of `QuadModel.Insert` on the node's model,
     * with `isRoot` telling whether the node is the root.
     */
    predicate IsLeaf()
      reads this, tree, Repr
      ensures Valid() ==> (IsLeaf() <==> model.bucket.Some? && this != tree.root)
    {
      points.Some? && this != tree.root
    }

    /**
     * `construct_subtree(points, forced)`, where `count` is `len(points)`
     * and `n` bounds the depth of the recursion. A kept bucket makes the node
     * the next entry of `tree.leaves`.
     */
    method ConstructSubtree(pts: set<Point>, count: nat, forced: bool, ghost n: nat)
      requires Valid() && Inv(model) && Separable(pts, square, n) && CountFits(pts, count)
      modifies this, tree`leaves
      ensures Valid() && Inv(model) && fresh(Repr - old(Repr)) && old(Repr) <= Repr
      ensures model == Construct(old(model), pts, count, forced, n)
      ensures old(tree.leaves) <= tree.leaves
      ensures count <= BUCKET_SIZE && !forced ==> tree.leaves == old(tree.leaves) + [this]
      decreases n, if forced || count > BUCKET_SIZE then 1 else 0, 1
    {
      if count <= BUCKET_SIZE && !forced {
        KeepBucket(pts, count, forced, n);
      } else {
        SplitNode(pts, count, forced, n);
      }
    }

    /** The first branch of `construct_subtree`: the points become the bucket. */
    method KeepBucket(pts: set<Point>, ghost count: nat, ghost forced: bool, ghost n: nat)
      requires Valid() && Inv(model) && Separable(pts, square, n) && CountFits(pts, count)
      requires count <= BUCKET_SIZE && !forced
      modifies this, tree`leaves
      ensures Valid() && Inv(model) && Repr == old(Repr)
      ensures model == Construct(old(model), pts, count, forced, n)
      ensures tree.leaves == old(tree.leaves) + [this]
    {
      ghost var m0 := model;
      points := Some(pts);
      model := model.(bucket := points);
      tree.leaves := tree.leaves + [this];
      ConstructInv(m0, pts, count, forced, n);
    }

    /**
     * The second branch of `construct_subtree`: four new children on the
     * quarters of the square, each built from its part of the points.
     */
    method SplitNode(pts: set<Point>, ghost count: nat, forced: bool, ghost n: nat)
      requires Valid() && Inv(model) && Separable(pts, square, n) && CountFits(pts, count)
      requires count > BUCKET_SIZE || forced
      modifies this, tree`leaves
      ensures Valid() && Inv(model) && fresh(Repr - old(Repr)) && old(Repr) <= Repr
      ensures model == Construct(old(model), pts, count, forced, n)
      ensures old(tree.leaves) <= tree.leaves
      decreases n, 1, 0
    {
      ghost var m0 := model;
      var ne, nw, sw, se := NewChildren(pts, n);
      Link(ne, nw, sw, se);
      ConstructInv(m0, pts, count, forced, n);
    }

    /**
     * Four valid subtrees of this node's tree that own disjoint nodes, none
     * of them this node: what it takes to become its children.
     */
    ghost predicate Adoptable(ne: Node, nw: Node, sw: Node, se: Node)
      reads ne, nw, sw, se, ne.Repr, nw.Repr, sw.Repr, se.Repr
    {
      ne.Valid() && nw.Valid() && sw.Valid() && se.Valid() &&
      ne.tree == tree && nw.tree == tree && sw.tree == tree && se.tree == tree &&
      this !in ne.Repr && this !in nw.Repr && this !in sw.Repr && this !in se.Repr &&
      ne.Repr !! nw.Repr && ne.Repr !! sw.Repr && ne.Repr !! se.Repr &&
      nw.Repr !! sw.Repr && nw.Repr !! se.Repr && sw.Repr !! se.Repr
    }

    /** Makes four adoptable subtrees the children of this node. */
    method Link(ne: Node, nw: Node, sw: Node, se: Node)
      requires this in Repr && model.square == square && model.bucket == points
      requires Adoptable(ne, nw, sw, se)
      modifies this
      ensures Valid() && links == Linked(ne, nw, sw, se)
      ensures Repr == old(Repr) + ne.Repr + nw.Repr + sw.Repr + se.Repr
      ensures model == old(model).(kids := Four(ne.model, nw.model, sw.model, se.model))
    {
      assert ne != this && nw != this && sw != this && se != this;
      model := model.(kids := Four(ne.model, nw.model, sw.model, se.model));
      Repr := Repr + ne.Repr + nw.Repr + sw.Repr + se.Repr;
      links := Linked(ne, nw, sw, se);
      ValidLinked();
    }

    /** The node is valid once its children are adoptable, owned and modelled. */
    lemma ValidLinked()
      requires this in Repr && model.square == square && model.bucket == points && links.Linked?
      requires Adoptable(links.ne, links.nw, links.sw, links.se)
      requires links.ne.Repr + links.nw.Repr + links.sw.Repr + links.se.Repr <= Repr
      requires model.kids == KidModels(links)
      ensures Valid()
    {
    }

    /**
     * The four children `construct_subtree` makes: the points are split at
     * the midpoint of the square by `set_partition`, the square by
     * `rectangle_partition`, and each child is built from its part.
     */
    method NewChildren(pts: set<Point>, ghost n: nat) returns (ne: Node, nw: Node, sw: Node, se: Node)
      requires Separable(pts, square, n)
      modifies tree`leaves
      ensures Adoptable(ne, nw, sw, se)
      ensures fresh(ne.Repr) && fresh(nw.Repr) && fresh(sw.Repr) && fresh(se.Repr)
      ensures ne.model == Child(square, pts, n, NE) && nw.model == Child(square, pts, n, NW)
      ensures sw.model == Child(square, pts, n, SW) && se.model == Child(square, pts, n, SE)
      ensures old(tree.leaves) <= tree.leaves
      decreases n, 0, 4
    {
      var x, y := MedX(square), MedY(square);
      var pNE, pNW, pSW, pSE := SetPartition(Some(pts), x, y);
      var quarters := RectanglePartition(square);
      ne, nw := NewTwins(quarters.0, pNE, NE, quarters.1, pNW, NW, pts, n);
      sw, se := NewTwins(quarters.2, pSW, SW, quarters.3, pSE, SE, pts, n);
    }

    /** Two new children, on the quarters `q` and `q'`, owning disjoint nodes. */
    method NewTwins(sq: Rectangle, part: set<Point>, q: Quarter, sq': Rectangle, part': set<Point>, q': Quarter,
                    ghost pts: set<Point>, ghost n: nat)
      returns (c: Node, c': Node)
      requires Separable(pts, square, n)
      requires sq == QuarterRect(square, q) && part == InQuarter(pts, MedX(square), MedY(square), q)
      requires sq' == QuarterRect(square, q') && part' == InQuarter(pts, MedX(square), MedY(square), q')
      modifies tree`leaves
      ensures c.Valid() && c'.Valid() && c.tree == tree && c'.tree == tree
      ensures fresh(c.Repr) && fresh(c'.Repr) && c.Repr !! c'.Repr
      ensures c.model == Child(square, pts, n, q) && c'.model == Child(square, pts, n, q')
      ensures old(tree.leaves) <= tree.leaves
      decreases n, 0, 3
    {
      c := NewChild(sq, part, pts, n, q);
      c' := NewChild(sq', part', pts, n, q');
    }

    /**
     * A new child on the quarter `q` of the node's square, built from the
     * points `part` of `pts` that `set_partition` files under `q`.
     */
    method NewChild(sq: Rectangle, part: set<Point>, ghost pts: set<Point>, ghost n: nat, ghost q: Quarter)
      returns (c: Node)
      requires Separable(pts, square, n) && sq == QuarterRect(square, q)
      requires part == InQuarter(pts, MedX(square), MedY(square), q)
      modifies tree`leaves
      ensures c.Valid() && fresh(c.Repr) && c.tree == tree
      ensures c.model == Child(square, pts, n, q)
      ensures old(tree.leaves) <= tree.leaves
      decreases n, 0, 2
    {
      SeparableQuarter(pts, square, n, q);
      SmallQuarters(pts, square, n);
      c := new Node(tree, sq);
      c.ConstructSubtree(part, |part|, false, if n > 0 then n - 1 else 0);
    }

    /**
     * `insert_subtree(point)`: the new state and the answer are those of
     * `QuadModel.Insert`, with the node counted as the root exactly when it
     * is `tree.root`. Only an accepted point changes anything.
     */
    method InsertSubtree(p: Point) returns (r: InsertResult)
      requires Valid() && Inv(model) && (tree.root in Repr ==> tree.root == this)
      modifies Repr, tree`leaves
      ensures Valid() && Inv(model) && fresh(Repr - old(Repr)) && old(Repr) <= Repr
      ensures (model, r) == Insert(old(model), p, this == tree.root)
      ensures r != Accepted ==> model == old(model) && Repr == old(Repr)
      ensures old(tree.leaves) <= tree.leaves
      ensures r != Accepted ==> tree.leaves == old(tree.leaves)
      decreases Repr, 2
    {
      if !Contains(square, p) {
        return Rejected;
      }
      if IsLeaf() {
        r := InsertLeaf(p);
      } else if links.Unlinked? {
        r := NoChildren;
      } else {
        InsertStores(model, p, this == tree.root);
        InsertRefusedUnchanged(model, p, this == tree.root);
        r := InsertBelow(p);
      }
    }

    /** A leaf takes the point into its bucket, or splits when the bucket is full. */
    method InsertLeaf(p: Point) returns (r: InsertResult)
      requires Valid() && Inv(model) && Contains(square, p) && IsLeaf()
      modifies this, tree`leaves
      ensures Valid() && Inv(model) && fresh(Repr - old(Repr)) && old(Repr) <= Repr
      ensures (model, r) == Insert(old(model), p, false) && r == Accepted
      ensures old(tree.leaves) <= tree.leaves
      ensures |old(points).value| < BUCKET_SIZE ==> tree.leaves == old(tree.leaves)
      ensures |old(points).value| >= BUCKET_SIZE && |old(points).value + {p}| <= BUCKET_SIZE ==>
                tree.leaves == old(tree.leaves) + [this]
    {
      LeafInsertStores(model, p);
      if |points.value| < BUCKET_SIZE {
        AddToBucket(p);
      } else {
        var add := points.value + {p};
        ConstructSubtree(add, |add|, false, Budget(add, square));
      }
      r := Accepted;
    }

    /** `self.points.add(point)`. */
    method AddToBucket(p: Point)
      requires Valid() && points.Some?
      modifies this
      ensures Valid() && Repr == old(Repr)
      ensures model == old(model).(bucket := Some(old(points).value + {p}))
    {
      points := Some(points.value + {p});
      model := model.(bucket := points);
    }

    /**
     * The point offered to the children in the order `ne`, `nw`, `se`, `sw`
     * until one takes it (True) or fails (no children); None when all
     * answer False.
     */
    method InsertBelow(p: Point) returns (r: InsertResult)
      requires Valid() && Inv(model) && (tree.root in Repr ==> tree.root == this)
      requires Contains(square, p) && links.Linked? && !(points.Some? && this != tree.root)
      modifies Repr, tree`leaves
      ensures Valid() && fresh(Repr - old(Repr)) && old(Repr) <= Repr
      ensures (model, r) == Insert(old(model), p, this == tree.root)
      ensures r != Accepted ==> Repr == old(Repr)
      ensures old(tree.leaves) <= tree.leaves
      ensures r != Accepted ==> tree.leaves == old(tree.leaves)
      decreases Repr, 1
    {
      ghost var m0 := model;
      var Linked(ne, nw, sw, se) := links;
      r := Offer(ne, p);
      if r != Rejected && r != FellThrough {
        return;
      }
      r := Offer(nw, p);
      if r != Rejected && r != FellThrough {
        return;
      }
      r := Offer(se, p);
      if r != Rejected && r != FellThrough {
        return;
      }
      r := Offer(sw, p);
      if r != Rejected && r != FellThrough {
        return;
      }
      r := FellThrough;
    }

    /**
     * One child's `insert_subtree(point)`, with this node's state brought up
     * to date: the child's model becomes the inserted one, the others stay.
     */
    method Offer(c: Node, p: Point) returns (r: InsertResult)
      requires Valid() && links.Linked? && (tree.root in Repr ==> tree.root == this)
      requires c == links.ne || c == links.nw || c == links.sw || c == links.se
      requires Inv(c.model)
      modifies Repr, tree`leaves
      ensures Valid() && links == old(links) && fresh(Repr - old(Repr)) && old(Repr) <= Repr
      ensures (c.model, r) == Insert(old(c.model), p, false)
      ensures links.ne != c ==> links.ne.model == old(links.ne.model)
      ensures links.nw != c ==> links.nw.model == old(links.nw.model)
      ensures links.sw != c ==> links.sw.model == old(links.sw.model)
      ensures links.se != c ==> links.se.model == old(links.se.model)
      ensures model == old(model).(kids := KidModels(links))
      ensures r != Accepted ==> Repr == old(Repr)
      ensures old(tree.leaves) <= tree.leaves
      ensures r != Accepted ==> tree.leaves == old(tree.leaves)
      decreases Repr, 0
    {
      r := c.InsertSubtree(p);
      assert Adoptable(links.ne, links.nw, links.sw, links.se);
      if r == Accepted {
        Link(links.ne, links.nw, links.sw, links.se);
      } else {
        ValidLinked();
      }
    }

    /**
     * `query_range_subtree(range_rect)`: the points of the subtree's buckets
     * that the range contains, as `QuadModel.Query` collects them.
     */
    method QueryRangeSubtree(range: Rectangle) returns (result: set<Point>)
      requires Valid()
      ensures result == Query(model, range)
      decreases Repr
    {
      result := {};
      if Intersects(square, range) {
        if points.Some? {
          var rest := points.value;
          while rest != {}
            invariant rest <= points.value
            invariant result == set q | q in points.value - rest && Contains(range, q)
            decreases rest
          {
            var q :| q in rest;
            if Contains(range, q) {
              result := result + {q};
            }
            rest := rest - {q};
          }
        }
        if links.Linked? {
          var found := links.ne.QueryRangeSubtree(range);
          result := result + found;
          found := links.nw.QueryRangeSubtree(range);
          result := result + found;
          found := links.sw.QueryRangeSubtree(range);
          result := result + found;
          found := links.se.QueryRangeSubtree(range);
          result := result + found;
        }
      }
    }
  }

  /** The exception `Quad([])` raises: `min` of an empty sequence. */
  datatype QuadError = ValueError

  class Quad {
    const points: seq<Point>
    var leaves: seq<Node>
    var root: Node?

    ghost predicate Valid()
      reads this, root, if root != null then root.Repr else {}
    {
      root != null && root.tree == this && root.Valid() && Inv(root.model)
    }

    /**
     * `Quad(points)` for a non-empty list: the root covers the bounding box of
     * the points and is built from all of them, with `len(points)` counting
     * repeats.
     */
    constructor (P: seq<Point>)
      requires P != []
      ensures Valid() && fresh(root) && points == P
      ensures root.square == MinSquare(P).value
      ensures Stored(root.model) == PointsOf(P) && SmallBuckets(root.model) && Clean(root.model)
      ensures root.model.kids.NoKids? <==> |P| <= BUCKET_SIZE
    {
      points := P;
      leaves := [];
      new;
      var square := MinSquare(P).value;
      root := new Node(this, square);
      BuildRoot(P);
    }

    /** `root.construct_subtree(points)` on the new root, which covers the bounding box. */
    method BuildRoot(P: seq<Point>)
      requires P != [] && root != null && root.Valid() && root.tree == this
      requires root.model == NewNode(root.square) && root.square == MinSquare(P).value
      modifies root, this`leaves
      ensures root.Valid() && Inv(root.model) && fresh(root.Repr - old(root.Repr)) && old(root.Repr) <= root.Repr
      ensures Stored(root.model) == PointsOf(P) && SmallBuckets(root.model) && Clean(root.model)
      ensures root.model.kids.NoKids? <==> |P| <= BUCKET_SIZE
    {
      var all := PointsOf(P);
      ghost var n := Budget(all, root.square);
      FreshBuild(root.square, all, |P|, n);
      root.ConstructSubtree(all, |P|, false, n);
    }

    /** `insert(point)`: inserting at the root, which is never a leaf. */
    method Insert(p: Point) returns (r: InsertResult)
      requires Valid()
      modifies root.Repr, this`leaves
      ensures Valid() && root == old(root) && fresh(root.Repr - old(root.Repr))
      ensures (root.model, r) == QuadModel.Insert(old(root.model), p, true)
      ensures r == if !Contains(root.square, p) then Rejected
                   else if old(root.model).kids.NoKids? then NoChildren
                   else Accepted
      ensures r == Accepted ==> p in Stored(root.model)
      ensures r == Accepted && Clean(old(root.model)) ==> Stored(root.model) == Stored(old(root.model)) + {p}
      ensures old(leaves) <= leaves
      ensures r != Accepted ==> leaves == old(leaves)
    {
      InsertOutcome(root.model, p, true);
      InsertStores(root.model, p, true);
      if Clean(root.model) {
        CleanInsertKeeps(root.model, p, true);
      }
      r := root.InsertSubtree(p);
    }

    /**
     * `query_range(range_rect)`: every stored point strictly inside the range
     * is found, and only stored points the range contains are returned.
     */
    method QueryRange(range: Rectangle) returns (result: set<Point>)
      requires Valid()
      ensures result == Query(root.model, range)
      ensures forall q :: q in result ==> q in Stored(root.model) && Contains(range, q)
      ensures forall q :: q in Stored(root.model) && StrictlyInside(range, q) ==> q in result
    {
      result := root.QueryRangeSubtree(range);
      QuerySound(root.model, range);
      QueryComplete(root.model, range);
    }
  }

  /** The distinct points of a list: never more of them than entries. */
  function PointsOf(P: seq<Point>): (s: set<Point>)
    ensures forall p :: p in s <==> p in P
    ensures |s| <= |P|
  {
    if P == [] then {} else {P[0]} + PointsOf(P[1..])
  }

  /**
   * Building a tree: `Quad(points)`, with the ValueError an empty list
   * raises (from `min_square`).
   */
  method NewQuad(P: seq<Point>) returns (r: Result<Quad, QuadError>)
    ensures r.Err? <==> P == []
    ensures r.Ok? ==> fresh(r.value) && r.value.Valid() && r.value.points == P
    ensures r.Ok? ==> Stored(r.value.root.model) == PointsOf(P)
  {
    if P == [] {
      return Err(ValueError);
    }
    var q := new Quad(P);
    return Ok(q);
  }
}
