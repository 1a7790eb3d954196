/**
 * Orthogonal range search in the k-d tree (`KDtree.__contains`,
 * `KDtree.__intersects`, `KDtree.__search_kdtree` and `KDtree.query` in
 * kdtree/kdtree.py).
 *
 * The search keeps the current node's region as two bound vectors that it
 * tightens in place before visiting a child and restores afterwards. The
 * function `SearchSpec` says what the search returns for given bounds; the
 * method `Search` does it on arrays and is proved to return `SearchSpec` and
 * to leave the arrays as it found them.
 */
module KdQuery {
  import opened Wrappers
  import opened KdNode
  import opened KdBuild

  /* ------------------------------------------------------------ arithmetic on bounds */

  /** `x - b <= eps` for a real `x` and a bound `b`, with `x - (-inf) = +inf` and `x - inf = -inf`. */
  predicate SubAtMost(x: real, b: Ext, eps: real)
  {
    match b
    case NegInf => false
    case Fin(v) => x - v <= eps
    case PosInf => true
  }

  /** `x - b >= -eps` for a real `x` and a bound `b`. */
  predicate SubAtLeast(x: real, b: Ext, eps: real)
  {
    match b
    case NegInf => true
    case Fin(v) => x - v >= -eps
    case PosInf => false
  }

  /** `b - x < -eps` for a bound `b` and a real `x`. */
  predicate BelowBy(b: Ext, x: real, eps: real)
  {
    match b
    case NegInf => true
    case Fin(v) => v - x < -eps
    case PosInf => false
  }

  /** `b - x > eps` for a bound `b` and a real `x`. */
  predicate AboveBy(b: Ext, x: real, eps: real)
  {
    match b
    case NegInf => false
    case Fin(v) => v - x > eps
    case PosInf => true
  }

  /* ------------------------------------------------------------ region tests */

  /** `__contains`: the region `lo`..`hi` lies inside the query box `ll`..`ur`, up to `eps`, on the first `k` axes. */
  predicate Contains(lo: seq<Ext>, hi: seq<Ext>, ll: Point, ur: Point, k: nat, eps: real)
    requires |lo| == k && |hi| == k && |ll| >= k && |ur| >= k
  {
    (forall i :: 0 <= i < k ==> SubAtMost(ll[i], lo[i], eps)) &&
    (forall i :: 0 <= i < k ==> SubAtLeast(ur[i], hi[i], eps))
  }

  /** `__intersects`: on no axis does the region end below the box or start above it, by more than `eps`. */
  predicate Intersects(lo: seq<Ext>, hi: seq<Ext>, ll: Point, ur: Point, k: nat, eps: real)
    requires |lo| == k && |hi| == k && |ll| >= k && |ur| >= k
  {
    forall i :: 0 <= i < k ==> !BelowBy(hi[i], ll[i], eps) && !AboveBy(lo[i], ur[i], eps)
  }

  /** The leaf test: `ll[i] - eps <= p[i] <= ur[i] + eps` on every axis `i < k`. */
  predicate InBox(p: Point, ll: Point, ur: Point, k: nat, eps: real)
    requires |p| >= k && |ll| >= k && |ur| >= k
  {
    forall i :: 0 <= i < k ==> ll[i] - eps <= p[i] <= ur[i] + eps
  }

  /** With `eps = 0`, a region inside the box holds only points inside the box. */
  lemma ContainedInBox(p: Point, lo: seq<Ext>, hi: seq<Ext>, ll: Point, ur: Point, k: nat)
    requires |lo| == k && |hi| == k && |ll| >= k && |ur| >= k
    requires Contains(lo, hi, ll, ur, k, 0.0) && InBounds(p, lo, hi, k, 0.0)
    ensures InBox(p, ll, ur, k, 0.0)
  {
    forall i | 0 <= i < k ensures ll[i] <= p[i] <= ur[i] {
      assert SubAtMost(ll[i], lo[i], 0.0) && SubAtLeast(ur[i], hi[i], 0.0);
      assert AtMost(lo[i], p[i]) && AtLeast(hi[i], p[i]);
    }
  }

  /** With `eps = 0`, a region that does not meet the box holds no point of the box. */
  lemma DisjointMissesBox(p: Point, lo: seq<Ext>, hi: seq<Ext>, ll: Point, ur: Point, k: nat)
    requires |lo| == k && |hi| == k && |ll| >= k && |ur| >= k
    requires !Intersects(lo, hi, ll, ur, k, 0.0) && InBounds(p, lo, hi, k, 0.0)
    ensures !InBox(p, ll, ur, k, 0.0)
  {
    var i :| 0 <= i < k && (BelowBy(hi[i], ll[i], 0.0) || AboveBy(lo[i], ur[i], 0.0));
    assert AtMost(lo[i], p[i]) && AtLeast(hi[i], p[i]);
    assert !(ll[i] <= p[i] <= ur[i]);
  }

  /* ------------------------------------------------------------ reference answer */

  /** The points of `s` (with at least `k` coordinates) that pass the leaf test, in their order in `s`. */
  function Hits(s: seq<Point>, ll: Point, ur: Point, k: nat, eps: real): (r: seq<Point>)
    requires |ll| >= k && |ur| >= k
    ensures forall p :: p in r <==> p in s && |p| >= k && InBox(p, ll, ur, k, eps)
  {
    if s == [] then []
    else
      assert forall p :: p in s <==> p == s[0] || p in s[1..];
      (if |s[0]| >= k && InBox(s[0], ll, ur, k, eps) then [s[0]] else []) + Hits(s[1..], ll, ur, k, eps)
  }

  /** Filtering a concatenation filters each part. */
  lemma {:induction false} HitsAppend(s: seq<Point>, t: seq<Point>, ll: Point, ur: Point, k: nat, eps: real)
    requires |ll| >= k && |ur| >= k
    ensures Hits(s + t, ll, ur, k, eps) == Hits(s, ll, ur, k, eps) + Hits(t, ll, ur, k, eps)
  {
    if s == [] {
      assert s + t == t;
    } else {
      var head := if |s[0]| >= k && InBox(s[0], ll, ur, k, eps) then [s[0]] else [];
      var rest, back := Hits(s[1..], ll, ur, k, eps), Hits(t, ll, ur, k, eps);
      assert (s + t)[0] == s[0] && (s + t)[1..] == s[1..] + t;
      calc {
        Hits(s + t, ll, ur, k, eps);
        { HitsFront(s + t, ll, ur, k, eps); }
        head + Hits(s[1..] + t, ll, ur, k, eps);
        { HitsAppend(s[1..], t, ll, ur, k, eps); }
        head + (rest + back);
        (head + rest) + back;
        { HitsFront(s, ll, ur, k, eps); }
        Hits(s, ll, ur, k, eps) + back;
      }
    }
  }

  /** `Hits` of a non-empty list: the first point if it passes, then the hits of the rest. */
  lemma HitsFront(s: seq<Point>, ll: Point, ur: Point, k: nat, eps: real)
    requires |ll| >= k && |ur| >= k && s != []
    ensures Hits(s, ll, ur, k, eps)
      == (if |s[0]| >= k && InBox(s[0], ll, ur, k, eps) then [s[0]] else []) + Hits(s[1..], ll, ur, k, eps)
  {
  }

  /** A list whose every point passes the test is returned whole. */
  lemma {:induction false} HitsAll(s: seq<Point>, ll: Point, ur: Point, k: nat, eps: real)
    requires |ll| >= k && |ur| >= k
    requires forall p :: p in s ==> |p| >= k && InBox(p, ll, ur, k, eps)
    ensures Hits(s, ll, ur, k, eps) == s
  {
    if s != [] {
      assert s[0] in s;
      HitsAll(s[1..], ll, ur, k, eps);
    }
  }

  /** A list none of whose points passes the test gives nothing. */
  lemma {:induction false} HitsNone(s: seq<Point>, ll: Point, ur: Point, k: nat, eps: real)
    requires |ll| >= k && |ur| >= k
    requires forall p :: p in s ==> |p| >= k && !InBox(p, ll, ur, k, eps)
    ensures Hits(s, ll, ur, k, eps) == []
  {
    if s != [] {
      assert s[0] in s;
      HitsNone(s[1..], ll, ur, k, eps);
    }
  }

  /** How often `Hits` keeps a point: as often as `s` holds it, if it passes the test. */
  lemma {:induction false} HitsCount(s: seq<Point>, ll: Point, ur: Point, k: nat, eps: real, x: Point)
    requires |ll| >= k && |ur| >= k
    ensures multiset(Hits(s, ll, ur, k, eps))[x] ==
            if |x| >= k && InBox(x, ll, ur, k, eps) then multiset(s)[x] else 0
  {
    if s != [] {
      assert s == [s[0]] + s[1..];
      HitsCount(s[1..], ll, ur, k, eps, x);
    }
  }

  /** `Hits` depends on its input only through the multiplicity of each point. */
  lemma HitsMultiset(s: seq<Point>, t: seq<Point>, ll: Point, ur: Point, k: nat, eps: real)
    requires |ll| >= k && |ur| >= k
    requires multiset(s) == multiset(t)
    ensures multiset(Hits(s, ll, ur, k, eps)) == multiset(Hits(t, ll, ur, k, eps))
  {
    forall x | true
      ensures multiset(Hits(s, ll, ur, k, eps))[x] == multiset(Hits(t, ll, ur, k, eps))[x]
    {
      HitsCount(s, ll, ur, k, eps, x);
      HitsCount(t, ll, ur, k, eps, x);
    }
  }

  /* ------------------------------------------------------------ the search */

  /**
   * What `__search_kdtree(v, lo, hi, ll, ur, depth)` returns. A leaf gives its
   * point if it passes the leaf test. A split node visits its present
   * children, left then right, each with the bound on the active axis set to
   * the split line.
   */
  function SearchSpec(v: Tree, lo: seq<Ext>, hi: seq<Ext>, ll: Point, ur: Point, depth: nat, k: nat, eps: real): seq<Point>
    requires k >= 1 && |lo| == k && |hi| == k && |ll| >= k && |ur| >= k && Dims(v, k)
    decreases v, 0
  {
    match v
    case Empty => []
    case Leaf(p) => if InBox(p, ll, ur, k, eps) then [p] else []
    case Split(line, l, r) =>
      var axis := depth % k;
      Visit(l, lo, hi[axis := Fin(line)], ll, ur, depth + 1, k, eps) +
      Visit(r, lo[axis := Fin(line)], hi, ll, ur, depth + 1, k, eps)
  }

  /**
   * One child visit with the child's region `lo`..`hi`: a missing child gives
   * nothing, a region inside the box is reported whole, one that meets the
   * box is searched, and any other is pruned.
   */
  function Visit(c: Tree, lo: seq<Ext>, hi: seq<Ext>, ll: Point, ur: Point, depth: nat, k: nat, eps: real): seq<Point>
    requires k >= 1 && |lo| == k && |hi| == k && |ll| >= k && |ur| >= k && Dims(c, k)
    decreases c, 1
  {
    if c.Empty? then []
    else if Contains(lo, hi, ll, ur, k, eps) then Report(c)
    else if Intersects(lo, hi, ll, ur, k, eps) then SearchSpec(c, lo, hi, ll, ur, depth, k, eps)
    else []
  }

  /** A region inside the box: every point of the subtree is a hit. */
  lemma ContainedHits(c: Tree, lo: seq<Ext>, hi: seq<Ext>, ll: Point, ur: Point, depth: nat, k: nat)
    requires k >= 1 && |lo| == k && |hi| == k && |ll| >= k && |ur| >= k && Dims(c, k)
    requires InRegion(c, lo, hi, depth, k, 0.0) && Contains(lo, hi, ll, ur, k, 0.0)
    ensures Hits(Report(c), ll, ur, k, 0.0) == Report(c)
  {
    ReportHasDim(c, k);
    var s := Report(c);
    forall p | p in s ensures |p| >= k && InBox(p, ll, ur, k, 0.0) {
      ContainedInBox(p, lo, hi, ll, ur, k);
    }
    HitsAll(s, ll, ur, k, 0.0);
  }

  /** A region that misses the box: no point of the subtree is a hit. */
  lemma DisjointHits(c: Tree, lo: seq<Ext>, hi: seq<Ext>, ll: Point, ur: Point, depth: nat, k: nat)
    requires k >= 1 && |lo| == k && |hi| == k && |ll| >= k && |ur| >= k && Dims(c, k)
    requires InRegion(c, lo, hi, depth, k, 0.0) && !Intersects(lo, hi, ll, ur, k, 0.0)
    ensures Hits(Report(c), ll, ur, k, 0.0) == []
  {
    ReportHasDim(c, k);
    var s := Report(c);
    forall p | p in s ensures |p| >= k && !InBox(p, ll, ur, k, 0.0) {
      DisjointMissesBox(p, lo, hi, ll, ur, k);
    }
    HitsNone(s, ll, ur, k, 0.0);
  }

  /** With `eps = 0` and the region invariant, visiting a child returns its hits. */
  lemma ChildHits(c: Tree, lo: seq<Ext>, hi: seq<Ext>, ll: Point, ur: Point, depth: nat, k: nat)
    requires k >= 1 && |lo| == k && |hi| == k && |ll| >= k && |ur| >= k && Dims(c, k)
    requires InRegion(c, lo, hi, depth, k, 0.0)
    requires Intersects(lo, hi, ll, ur, k, 0.0) && !Contains(lo, hi, ll, ur, k, 0.0) ==>
             SearchSpec(c, lo, hi, ll, ur, depth, k, 0.0) == Hits(Report(c), ll, ur, k, 0.0)
    ensures Visit(c, lo, hi, ll, ur, depth, k, 0.0) == Hits(Report(c), ll, ur, k, 0.0)
  {
    if c.Empty? {
    } else if Contains(lo, hi, ll, ur, k, 0.0) {
      ContainedHits(c, lo, hi, ll, ur, depth, k);
    } else if !Intersects(lo, hi, ll, ur, k, 0.0) {
      DisjointHits(c, lo, hi, ll, ur, depth, k);
    }
  }

  /**
   * With `eps = 0`, searching a subtree that satisfies the region invariant for
   * its bounds returns exactly the subtree's points that lie in the box, in
   * report order: bulk reporting and pruning lose and add nothing.
   */
  lemma {:induction false} SearchFindsHits(v: Tree, lo: seq<Ext>, hi: seq<Ext>, ll: Point, ur: Point, depth: nat, k: nat)
    requires k >= 1 && |lo| == k && |hi| == k && |ll| >= k && |ur| >= k && Dims(v, k)
    requires InRegion(v, lo, hi, depth, k, 0.0)
    ensures SearchSpec(v, lo, hi, ll, ur, depth, k, 0.0) == Hits(Report(v), ll, ur, k, 0.0)
    decreases v
  {
    match v
    case Empty =>
    case Leaf(p) =>
    case Split(line, l, r) =>
      var axis := depth % k;
      var hiL, loR := hi[axis := Fin(line)], lo[axis := Fin(line)];
      SearchFindsHits(l, lo, hiL, ll, ur, depth + 1, k);
      SearchFindsHits(r, loR, hi, ll, ur, depth + 1, k);
      ChildHits(l, lo, hiL, ll, ur, depth + 1, k);
      ChildHits(r, loR, hi, ll, ur, depth + 1, k);
      HitsAppend(Report(l), Report(r), ll, ur, k, 0.0);
  }

  /**
   * `__search_kdtree` on the shared bound arrays `lo` and `hi`: each child is
   * visited with one component tightened to the split line, and that
   * component is put back afterwards, so the arrays end as they began.
   */
  method Search(v: Tree, lo: array<Ext>, hi: array<Ext>, ll: Point, ur: Point, depth: nat, k: nat, eps: real)
    returns (points: seq<Point>)
    requires lo != hi && lo.Length == k && hi.Length == k
    requires k >= 1 && |ll| >= k && |ur| >= k && Dims(v, k)
    modifies lo, hi
    ensures lo[..] == old(lo[..]) && hi[..] == old(hi[..])
    ensures points == SearchSpec(v, old(lo[..]), old(hi[..]), ll, ur, depth, k, eps)
    decreases v
  {
    match v
    case Empty =>
      points := [];
    case Leaf(p) =>
      points := if InBox(p, ll, ur, k, eps) then [p] else [];
    case Split(line, l, r) =>
      var axis := depth % k;
      ghost var lo0, hi0 := lo[..], hi[..];
      points := [];
      if !l.Empty? {
        var saved := hi[axis];
        hi[axis] := Fin(line);
        if Contains(lo[..], hi[..], ll, ur, k, eps) {
          points := points + Report(l);
        } else if Intersects(lo[..], hi[..], ll, ur, k, eps) {
          var sub := Search(l, lo, hi, ll, ur, depth + 1, k, eps);
          points := points + sub;
        }
        hi[axis] := saved;
        assert hi[..] == hi0;
      }
      assert points == Visit(l, lo0, hi0[axis := Fin(line)], ll, ur, depth + 1, k, eps);
      if !r.Empty? {
        var saved := lo[axis];
        lo[axis] := Fin(line);
        if Contains(lo[..], hi[..], ll, ur, k, eps) {
          points := points + Report(r);
        } else if Intersects(lo[..], hi[..], ll, ur, k, eps) {
          var sub := Search(r, lo, hi, ll, ur, depth + 1, k, eps);
          points := points + sub;
        }
        lo[axis] := saved;
        assert lo[..] == lo0;
      }
  }

  /* ------------------------------------------------------------ query */

  /**
   * `KDtree.query(ll, ur)`. The dimension check is the chained comparison
   * `len(ll) != len(ur) != k`, which raises TypeError only when both
   * inequalities hold; otherwise the search starts from the root with every
   * bound infinite. With `eps = 0` and a root satisfying the region
   * invariant, the answer is exactly the reported points inside the box.
   * Corners that pass the check but have fewer than `k` coordinates are not
   * modelled: the search would read past their end.
   */
  method Query(tree: KdTree, ll: Point, ur: Point) returns (r: Result<seq<Point>, KdError>)
    requires tree.k >= 1 && Dims(tree.root, tree.k)
    requires (|ll| != |ur| && |ur| != tree.k) || (|ll| >= tree.k && |ur| >= tree.k)
    ensures r.Err? <==> |ll| != |ur| && |ur| != tree.k
    ensures r.Err? ==> r.error == TypeError
    ensures r.Ok? ==> r.value == SearchSpec(tree.root, NegInfs(tree.k), PosInfs(tree.k), ll, ur, 0, tree.k, tree.eps)
    ensures r.Ok? && tree.eps == 0.0 && InRegion(tree.root, NegInfs(tree.k), PosInfs(tree.k), 0, tree.k, 0.0) ==>
            r.value == Hits(Report(tree.root), ll, ur, tree.k, 0.0)
  {
    if |ll| != |ur| && |ur| != tree.k {
      return Err(TypeError);
    }
    var lo := new Ext[tree.k](_ => NegInf);
    var hi := new Ext[tree.k](_ => PosInf);
    assert lo[..] == NegInfs(tree.k) && hi[..] == PosInfs(tree.k);
    var points := Search(tree.root, lo, hi, ll, ur, 0, tree.k, tree.eps);
    if tree.eps == 0.0 && InRegion(tree.root, NegInfs(tree.k), PosInfs(tree.k), 0, tree.k, 0.0) {
      SearchFindsHits(tree.root, NegInfs(tree.k), PosInfs(tree.k), ll, ur, 0, tree.k);
    }
    r := Ok(points);
  }

  /**
   * End to end, for a tree built from `P` with `eps = 0`: the query answer
   * holds each point of `P` inside the box exactly as often as `P` does, and
   * nothing else; with distinct input points, each such point exactly once.
   */
  lemma QueryFindsExactly(P: seq<Point>, k: nat, t: Tree, ll: Point, ur: Point)
    requires k >= 1 && HasDim(P, k) && |ll| >= k && |ur| >= k
    requires BuildsFrom(P, k, 0.0, t)
    ensures Dims(t, k)
    ensures multiset(SearchSpec(t, NegInfs(k), PosInfs(k), ll, ur, 0, k, 0.0)) == multiset(Hits(P, ll, ur, k, 0.0))
    ensures forall p :: p in SearchSpec(t, NegInfs(k), PosInfs(k), ll, ur, 0, k, 0.0) <==> p in P && |p| >= k && InBox(p, ll, ur, k, 0.0)
    ensures (forall i, j :: 0 <= i < j < |P| ==> P[i] != P[j]) ==>
            forall p :: multiset(SearchSpec(t, NegInfs(k), PosInfs(k), ll, ur, 0, k, 0.0))[p] <= 1
  {
    SortAllSorted(P, k);
    var lists := SortAll(P, k);
    BuildsReports(lists, 0, k, 0.0, t);
    BuildsRegion(lists, 0, k, 0.0, t, NegInfs(k), PosInfs(k));
    ReportHasDim(t, k);
    SearchFindsHits(t, NegInfs(k), PosInfs(k), ll, ur, 0, k);
    HitsMultiset(Report(t), P, ll, ur, k, 0.0);
    var answer := SearchSpec(t, NegInfs(k), PosInfs(k), ll, ur, 0, k, 0.0);
    HitsPermutation(answer, P, ll, ur, k);
  }

  /** A permutation of the hits of `P` holds exactly the points of `P` in the box, each once if `P` has no repeats. */
  lemma HitsPermutation(answer: seq<Point>, P: seq<Point>, ll: Point, ur: Point, k: nat)
    requires |ll| >= k && |ur| >= k
    requires multiset(answer) == multiset(Hits(P, ll, ur, k, 0.0))
    ensures forall p :: p in answer <==> p in P && |p| >= k && InBox(p, ll, ur, k, 0.0)
    ensures (forall i, j :: 0 <= i < j < |P| ==> P[i] != P[j]) ==> forall p :: multiset(answer)[p] <= 1
  {
    forall p ensures p in answer <==> p in P && |p| >= k && InBox(p, ll, ur, k, 0.0) {
      assert p in answer <==> p in multiset(answer);
      assert p in P <==> p in multiset(P);
      HitsCount(P, ll, ur, k, 0.0, p);
    }
    if forall i, j :: 0 <= i < j < |P| ==> P[i] != P[j] {
      forall p ensures multiset(answer)[p] <= 1 {
        HitsCount(P, ll, ur, k, 0.0, p);
        DistinctOnce(P, p);
      }
    }
  }

  /** A list without repeated elements holds each value at most once. */
  lemma {:induction false} DistinctOnce(s: seq<Point>, x: Point)
    requires forall i, j :: 0 <= i < j < |s| ==> s[i] != s[j]
    ensures multiset(s)[x] <= 1
  {
    if s != [] {
      assert s == [s[0]] + s[1..];
      DistinctOnce(s[1..], x);
      if x == s[0] { assert x !in s[1..]; }
    }
  }
}
