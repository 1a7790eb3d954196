/**
 * The nodes of the k-d tree (class `Node` of kdtree/kdtree.py) as a value type,
 * the extended reals used for the search region's bounds, and `report_subtree`.
 */
module KdNode {

  /** A k-dimensional point: a Python tuple of floats, modelled with reals. */
  type Point = seq<real>

  /**
   * A node. `Empty` is a missing child (Python's `None`), `Leaf` a node that
   * holds one point, `Split` a node with a splitting `line` and two children.
   */
  datatype Tree = Empty | Leaf(point: Point) | Split(line: real, left: Tree, right: Tree)

  /** A bound of the search region: a real or one of the floats -inf and +inf. */
  datatype Ext = NegInf | Fin(v: real) | PosInf

  /** `b <= x` for a bound `b` and a real `x`. */
  predicate AtMost(b: Ext, x: real)
  {
    match b
    case NegInf => true
    case Fin(v) => v <= x
    case PosInf => false
  }

  /** `b >= x` for a bound `b` and a real `x`. */
  predicate AtLeast(b: Ext, x: real)
  {
    match b
    case NegInf => false
    case Fin(v) => v >= x
    case PosInf => true
  }

  /** `k` copies of -inf and of +inf: the region the query starts from. */
  function NegInfs(k: nat): (r: seq<Ext>)
    ensures |r| == k && forall i :: 0 <= i < k ==> r[i] == NegInf
  {
    seq(k, _ => NegInf)
  }

  function PosInfs(k: nat): (r: seq<Ext>)
    ensures |r| == k && forall i :: 0 <= i < k ==> r[i] == PosInf
  {
    seq(k, _ => PosInf)
  }

  /** Every point of `s` has at least `k` coordinates. */
  predicate HasDim(s: seq<Point>, k: nat)
  {
    forall p :: p in s ==> |p| >= k
  }

  /** Every leaf point of `t` has at least `k` coordinates. */
  predicate Dims(t: Tree, k: nat)
  {
    match t
    case Empty => true
    case Leaf(p) => |p| >= k
    case Split(_, l, r) => Dims(l, k) && Dims(r, k)
  }

  /**
   * The tree shapes the build produces: never `Empty` itself, and no `Split`
   * whose two children are both missing (the source would treat such a node
   * as a leaf without a point).
   */
  predicate Proper(t: Tree)
  {
    match t
    case Empty => false
    case Leaf(_) => true
    case Split(_, l, r) =>
      (l.Empty? || Proper(l)) && (r.Empty? || Proper(r)) && !(l.Empty? && r.Empty?)
  }

  /** `lo <= p <= hi + slack` on each of the first `k` axes. */
  predicate InBounds(p: Point, lo: seq<Ext>, hi: seq<Ext>, k: nat, slack: real)
    requires |lo| == k && |hi| == k
  {
    |p| >= k && forall i :: 0 <= i < k ==> AtMost(lo[i], p[i]) && AtLeast(hi[i], p[i] - slack)
  }

  /**
   * The region invariant of a subtree reached at `depth` with bounds `lo`/`hi`:
   * every point the subtree reports lies within those bounds (up to `slack`
   * above), and the children satisfy it for the bounds tightened at the split
   * line on the active axis, as the search tightens them.
   */
  predicate InRegion(t: Tree, lo: seq<Ext>, hi: seq<Ext>, depth: nat, k: nat, slack: real)
    requires k >= 1 && |lo| == k && |hi| == k
    decreases t
  {
    (forall p :: p in Report(t) ==> InBounds(p, lo, hi, k, slack)) &&
    match t
    case Split(line, l, r) =>
      var axis := depth % k;
      InRegion(l, lo, hi[axis := Fin(line)], depth + 1, k, slack) &&
      InRegion(r, lo[axis := Fin(line)], hi, depth + 1, k, slack)
    case _ => true
  }

  /** `Node.report_subtree`: the points of the subtree's leaves, left before right. */
  function Report(t: Tree): seq<Point>
  {
    match t
    case Empty => []
    case Leaf(p) => [p]
    case Split(_, l, r) => Report(l) + Report(r)
  }

  /** Every reported point is a leaf point of the subtree, so it has the tree's dimension. */
  lemma {:induction false} ReportHasDim(t: Tree, k: nat)
    requires Dims(t, k)
    ensures HasDim(Report(t), k)
  {
    match t
    case Empty =>
    case Leaf(_) =>
    case Split(_, l, r) =>
      ReportHasDim(l, k);
      ReportHasDim(r, k);
  }

  /** A proper subtree reports at least one point. */
  lemma {:induction false} ProperReportsSomething(t: Tree)
    requires Proper(t)
    ensures |Report(t)| >= 1
  {
    match t
    case Leaf(_) =>
    case Split(_, l, r) =>
      if !l.Empty? { ProperReportsSomething(l); }
      if !r.Empty? { ProperReportsSomething(r); }
  }
}
