/**
 * Construction of the k-d tree (`KDtree.__init__` and `KDtree.__build_kdtree`
 * in kdtree/kdtree.py).
 *
 * The recursive build need not terminate (see `StuckDiverges`), so it is
 * specified by a relation `Builds` between the per-axis lists and the tree the
 * recursion returns; where no tree is related, the recursion does not end.
 */
module KdBuild {
  import opened Wrappers
  import opened KdNode

  /** The test that sends a point to the left half: `p[axis] - median <= eps`. */
  predicate GoesLeft(p: Point, axis: nat, median: real, eps: real)
    requires axis < |p|
  {
    p[axis] - median <= eps
  }

  /** `s` is in non-decreasing order of coordinate `axis`. */
  predicate SortedOn(s: seq<Point>, axis: nat)
    requires HasDim(s, axis + 1)
  {
    forall i, j :: 0 <= i < j < |s| ==> s[i][axis] <= s[j][axis]
  }

  /* ---------------------------------------------------------------- sorting */

  /** Inserts `x` after every leading element whose key does not exceed its own. */
  function InsertOn(x: Point, s: seq<Point>, axis: nat): (r: seq<Point>)
    requires axis < |x| && HasDim(s, axis + 1)
    ensures |r| == |s| + 1 && HasDim(r, axis + 1)
  {
    if s == [] then [x]
    else if s[0][axis] <= x[axis] then
      assert s == [s[0]] + s[1..];
      [s[0]] + InsertOn(x, s[1..], axis)
    else [x] + s
  }

  /** Inserting adds `x` and loses nothing. */
  lemma {:induction false} InsertOnPermutes(x: Point, s: seq<Point>, axis: nat)
    requires axis < |x| && HasDim(s, axis + 1)
    ensures multiset(InsertOn(x, s, axis)) == multiset(s) + multiset{x}
  {
    if s != [] && s[0][axis] <= x[axis] {
      InsertOnPermutes(x, s[1..], axis);
      assert s == [s[0]] + s[1..];
    }
  }

  /** A key no larger than `x` and than every key of `s` bounds every key after the insertion. */
  lemma {:induction false} InsertOnBounded(y: real, x: Point, s: seq<Point>, axis: nat)
    requires axis < |x| && HasDim(s, axis + 1)
    requires y <= x[axis] && forall i :: 0 <= i < |s| ==> y <= s[i][axis]
    ensures forall j :: 0 <= j < |InsertOn(x, s, axis)| ==> y <= InsertOn(x, s, axis)[j][axis]
  {
    if s != [] && s[0][axis] <= x[axis] {
      InsertOnBounded(y, x, s[1..], axis);
      var r := InsertOn(x, s, axis);
      assert r == [s[0]] + InsertOn(x, s[1..], axis);
    }
  }

  /** A key no larger than every key of a sorted list can be put in front of it. */
  lemma ConsSorted(h: Point, s: seq<Point>, axis: nat)
    requires axis < |h| && HasDim(s, axis + 1) && SortedOn(s, axis)
    requires forall j :: 0 <= j < |s| ==> h[axis] <= s[j][axis]
    ensures SortedOn([h] + s, axis)
  {
    var r := [h] + s;
    forall i, j | 0 <= i < j < |r| ensures r[i][axis] <= r[j][axis] {
      assert r[j] == s[j - 1];
      if i > 0 { assert r[i] == s[i - 1]; }
    }
  }

  /** Inserting into a sorted list keeps it sorted. */
  lemma {:induction false} InsertOnSorted(x: Point, s: seq<Point>, axis: nat)
    requires axis < |x| && HasDim(s, axis + 1) && SortedOn(s, axis)
    ensures SortedOn(InsertOn(x, s, axis), axis)
  {
    if s == [] {
    } else if s[0][axis] <= x[axis] {
      InsertOnSorted(x, s[1..], axis);
      InsertOnBounded(s[0][axis], x, s[1..], axis);
      ConsSorted(s[0], InsertOn(x, s[1..], axis), axis);
    } else {
      ConsSorted(x, s, axis);
    }
  }

  /** `sorted(P, key = lambda x: x[axis])`: insertion sort on one coordinate. */
  function SortOn(s: seq<Point>, axis: nat): (r: seq<Point>)
    requires HasDim(s, axis + 1)
    ensures |r| == |s| && HasDim(r, axis + 1) && SortedOn(r, axis)
  {
    if s == [] then []
    else
      assert s[..|s| - 1] + [s[|s| - 1]] == s;
      var sorted := SortOn(s[..|s| - 1], axis);
      InsertOnSorted(s[|s| - 1], sorted, axis);
      InsertOn(s[|s| - 1], sorted, axis)
  }

  /** Sorting neither adds nor loses points: the result is a permutation of the input. */
  lemma {:induction false} SortOnPermutes(s: seq<Point>, axis: nat)
    requires HasDim(s, axis + 1)
    ensures multiset(SortOn(s, axis)) == multiset(s)
    decreases |s|
  {
    if s != [] {
      var init := s[..|s| - 1];
      assert init + [s[|s| - 1]] == s;
      SortOnPermutes(init, axis);
      InsertOnPermutes(s[|s| - 1], SortOn(init, axis), axis);
    }
  }

  /** `preprocessed_P`: the input sorted once per axis. */
  function SortAll(P: seq<Point>, k: nat): seq<seq<Point>>
    requires HasDim(P, k)
  {
    seq(k, i requires 0 <= i < k => SortOn(P, i))
  }

  /* ------------------------------------------------------------ partition */

  /** The points of `s` that go to one side of the split (`left` or not), in their order in `s`. */
  function Keep(s: seq<Point>, axis: nat, median: real, eps: real, left: bool): seq<Point>
    requires HasDim(s, axis + 1)
  {
    if s == [] then []
    else
      var last := s[|s| - 1];
      Keep(s[..|s| - 1], axis, median, eps, left) +
      (if GoesLeft(last, axis, median, eps) == left then [last] else [])
  }

  /** How often `Keep` retains a point: as often as `s` holds it, if it belongs on that side. */
  lemma {:induction false} KeepCount(s: seq<Point>, axis: nat, median: real, eps: real, left: bool, x: Point)
    requires HasDim(s, axis + 1)
    ensures multiset(Keep(s, axis, median, eps, left))[x] ==
            if x in s && GoesLeft(x, axis, median, eps) == left then multiset(s)[x] else 0
  {
    if s != [] {
      var init, last := s[..|s| - 1], s[|s| - 1];
      assert s == init + [last];
      KeepCount(init, axis, median, eps, left, x);
      if x !in init { assert multiset(init)[x] == 0; }
    }
  }

  /** `Keep` depends on the elements of `s` only through their multiplicities. */
  lemma KeepRespectsMultiset(s: seq<Point>, t: seq<Point>, axis: nat, median: real, eps: real, left: bool)
    requires HasDim(s, axis + 1) && HasDim(t, axis + 1) && multiset(s) == multiset(t)
    ensures multiset(Keep(s, axis, median, eps, left)) == multiset(Keep(t, axis, median, eps, left))
  {
    forall x | true
      ensures multiset(Keep(s, axis, median, eps, left))[x] == multiset(Keep(t, axis, median, eps, left))[x]
    {
      KeepCount(s, axis, median, eps, left, x);
      KeepCount(t, axis, median, eps, left, x);
      assert x in s <==> x in multiset(s);
      assert x in t <==> x in multiset(t);
    }
  }

  /** The two sides of a split together hold every point of `s` exactly as often as `s` does. */
  lemma {:induction false} KeepSplitsMultiset(s: seq<Point>, axis: nat, median: real, eps: real)
    requires HasDim(s, axis + 1)
    ensures multiset(Keep(s, axis, median, eps, true)) + multiset(Keep(s, axis, median, eps, false)) == multiset(s)
  {
    if s != [] {
      var init, last := s[..|s| - 1], s[|s| - 1];
      assert s == init + [last];
      KeepSplitsMultiset(init, axis, median, eps);
    }
  }

  /** Each side holds only points of `s` that pass (left) or fail (right) the test. */
  lemma {:induction false} KeepSound(s: seq<Point>, axis: nat, median: real, eps: real, left: bool)
    requires HasDim(s, axis + 1)
    ensures forall p :: p in Keep(s, axis, median, eps, left) ==> p in s && GoesLeft(p, axis, median, eps) == left
  {
    if s != [] {
      var init, last := s[..|s| - 1], s[|s| - 1];
      assert s == init + [last];
      KeepSound(init, axis, median, eps, left);
    }
  }

  /**
   * The partition of one per-axis list: every point goes to exactly one side,
   * left iff `p[axis] - median <= eps`, and each side keeps the list's order,
   * so a list sorted on any axis `a` stays sorted on it.
   */
  lemma PartitionSplits(s: seq<Point>, a: nat, axis: nat, median: real, eps: real)
    requires HasDim(s, a + 1) && HasDim(s, axis + 1)
    ensures multiset(Keep(s, axis, median, eps, true)) + multiset(Keep(s, axis, median, eps, false)) == multiset(s)
    ensures forall p :: p in Keep(s, axis, median, eps, true) ==> p in s && GoesLeft(p, axis, median, eps)
    ensures forall p :: p in Keep(s, axis, median, eps, false) ==> p in s && !GoesLeft(p, axis, median, eps)
    ensures HasDim(Keep(s, axis, median, eps, true), a + 1) && HasDim(Keep(s, axis, median, eps, false), a + 1)
    ensures SortedOn(s, a) ==> SortedOn(Keep(s, axis, median, eps, true), a) && SortedOn(Keep(s, axis, median, eps, false), a)
  {
    KeepSplitsMultiset(s, axis, median, eps);
    KeepSound(s, axis, median, eps, true);
    KeepSound(s, axis, median, eps, false);
    if SortedOn(s, a) {
      KeepSorted(s, a, axis, median, eps, true);
      KeepSorted(s, a, axis, median, eps, false);
    }
  }

  lemma {:induction false} KeepSorted(s: seq<Point>, a: nat, axis: nat, median: real, eps: real, left: bool)
    requires HasDim(s, a + 1) && HasDim(s, axis + 1) && SortedOn(s, a)
    ensures HasDim(Keep(s, axis, median, eps, left), a + 1)
    ensures SortedOn(Keep(s, axis, median, eps, left), a)
    ensures forall p :: p in Keep(s, axis, median, eps, left) ==> p in s
  {
    if s != [] {
      var init, last := s[..|s| - 1], s[|s| - 1];
      KeepSorted(init, a, axis, median, eps, left);
      var kept := Keep(init, axis, median, eps, left);
      forall i | 0 <= i < |kept| ensures kept[i][a] <= last[a] {
        assert kept[i] in init;
        var j :| 0 <= j < |init| && init[j] == kept[i];
        assert s[j] == init[j];
      }
    }
  }

  /* ---------------------------------------------------------- per-axis lists */

  /** The per-axis lists of one subtree: `k` lists, each a permutation of the first. */
  predicate Consistent(lists: seq<seq<Point>>, k: nat)
  {
    k >= 1 && |lists| == k &&
    forall i :: 0 <= i < k ==> HasDim(lists[i], k) && multiset(lists[i]) == multiset(lists[0])
  }

  /** Consistent lists, list `i` sorted on coordinate `i`. */
  predicate SortedLists(lists: seq<seq<Point>>, k: nat)
  {
    Consistent(lists, k) && forall i :: 0 <= i < k ==> SortedOn(lists[i], i)
  }

  lemma SameLength(lists: seq<seq<Point>>, k: nat, i: nat)
    requires Consistent(lists, k) && i < k
    ensures |lists[i]| == |lists[0]|
  {
    assert |multiset(lists[i])| == |multiset(lists[0])|;
  }

  /** `prep_P_left` (`left`) or `prep_P_right`: every per-axis list split at `median`. */
  function SplitLists(lists: seq<seq<Point>>, k: nat, axis: nat, median: real, eps: real, left: bool): seq<seq<Point>>
    requires Consistent(lists, k) && axis < k
  {
    seq(k, i requires 0 <= i < k => Keep(lists[i], axis, median, eps, left))
  }

  /** Splitting keeps the per-axis lists consistent and sorted. */
  lemma SplitConsistent(lists: seq<seq<Point>>, k: nat, axis: nat, median: real, eps: real, left: bool)
    requires Consistent(lists, k) && axis < k
    ensures Consistent(SplitLists(lists, k, axis, median, eps, left), k)
    ensures SortedLists(lists, k) ==> SortedLists(SplitLists(lists, k, axis, median, eps, left), k)
  {
    var L := SplitLists(lists, k, axis, median, eps, left);
    forall i | 0 <= i < k
      ensures HasDim(L[i], k) && multiset(L[i]) == multiset(L[0])
      ensures SortedLists(lists, k) ==> SortedOn(L[i], i)
    {
      PartitionSplits(lists[i], k - 1, axis, median, eps);
      KeepRespectsMultiset(lists[i], lists[0], axis, median, eps, left);
      if SortedLists(lists, k) {
        PartitionSplits(lists[i], i, axis, median, eps);
      }
    }
  }

  /** Extending the scanned prefix by one point extends each side's list by at most that point. */
  lemma KeepStep(s: seq<Point>, j: nat, axis: nat, median: real, eps: real)
    requires HasDim(s, axis + 1) && j < |s|
    ensures Keep(s[..j + 1], axis, median, eps, true)
      == Keep(s[..j], axis, median, eps, true) + if GoesLeft(s[j], axis, median, eps) then [s[j]] else []
    ensures Keep(s[..j + 1], axis, median, eps, false)
      == Keep(s[..j], axis, median, eps, false) + if GoesLeft(s[j], axis, median, eps) then [] else [s[j]]
  {
    assert s[..j + 1][..j] == s[..j];
  }

  /**
   * The nested loops of `__build_kdtree` that fill `prep_P_left` and
   * `prep_P_right`: every point of every per-axis list is appended to exactly
   * one of them, in list order.
   */
  method PartitionLists(lists: seq<seq<Point>>, k: nat, axis: nat, median: real, eps: real)
    returns (left: seq<seq<Point>>, right: seq<seq<Point>>)
    requires Consistent(lists, k) && axis < k
    ensures left == SplitLists(lists, k, axis, median, eps, true)
    ensures right == SplitLists(lists, k, axis, median, eps, false)
  {
    left, right := [], [];
    for i := 0 to k
      invariant |left| == i && |right| == i
      invariant forall m :: 0 <= m < i ==>
        left[m] == Keep(lists[m], axis, median, eps, true) && right[m] == Keep(lists[m], axis, median, eps, false)
    {
      var l, r := PartitionList(lists[i], axis, median, eps);
      left, right := left + [l], right + [r];
    }
  }

  /** The inner loop for one per-axis list: each point goes to the left list or to the right one. */
  method PartitionList(s: seq<Point>, axis: nat, median: real, eps: real) returns (left: seq<Point>, right: seq<Point>)
    requires HasDim(s, axis + 1)
    ensures left == Keep(s, axis, median, eps, true) && right == Keep(s, axis, median, eps, false)
  {
    left, right := [], [];
    for j := 0 to |s|
      invariant left == Keep(s[..j], axis, median, eps, true) && right == Keep(s[..j], axis, median, eps, false)
    {
      var p := s[j];
      KeepStep(s, j, axis, median, eps);
      if p[axis] - median <= eps {
        left := left + [p];
      } else {
        right := right + [p];
      }
    }
    assert s[..|s|] == s;
  }

  /* ------------------------------------------------------------------ build */

  /** `P[axis][(n - 1) // 2][axis]`: the split value, taken from the list sorted on the active axis. */
  function Median(lists: seq<seq<Point>>, axis: nat, k: nat): real
    requires Consistent(lists, k) && axis < k && |lists[0]| >= 1
  {
    SameLength(lists, k, axis);
    lists[axis][(|lists[0]| - 1) / 2][axis]
  }

  /**
   * `Builds(lists, depth, t)`: `__build_kdtree(P, depth)` returns `t`. An empty
   * list gives no node, a single point a leaf holding it, and otherwise a node
   * whose line is the lower median of the active axis's list and whose
   * children are built from the two halves at the next depth. The recursion
   * terminates exactly when some `t` is related to the lists.
   */
  ghost predicate Builds(lists: seq<seq<Point>>, depth: nat, k: nat, eps: real, t: Tree)
    requires Consistent(lists, k)
    decreases t
  {
    var n := |lists[0]|;
    if n < 1 then t == Empty
    else if n == 1 then t == Leaf(lists[0][0])
    else
      var axis := depth % k;
      var median := Median(lists, axis, k);
      SplitConsistent(lists, k, axis, median, eps, true);
      SplitConsistent(lists, k, axis, median, eps, false);
      t.Split? && t.line == median &&
      Builds(SplitLists(lists, k, axis, median, eps, true), depth + 1, k, eps, t.left) &&
      Builds(SplitLists(lists, k, axis, median, eps, false), depth + 1, k, eps, t.right)
  }

  /**
   * `__build_kdtree`. The ghost `spec` is the tree the recursion returns; its
   * existence is what makes the recursion terminate.
   */
  method BuildKdtree(lists: seq<seq<Point>>, depth: nat, k: nat, eps: real, ghost spec: Tree) returns (t: Tree)
    requires Consistent(lists, k) && Builds(lists, depth, k, eps, spec)
    ensures t == spec && Builds(lists, depth, k, eps, t)
    decreases spec
  {
    var n := |lists[0]|;
    if n < 1 { return Empty; }
    if n == 1 { return Leaf(lists[0][0]); }
    var axis := depth % k;
    var median := Median(lists, axis, k);
    var pLeft, pRight := PartitionLists(lists, k, axis, median, eps);
    SplitConsistent(lists, k, axis, median, eps, true);
    SplitConsistent(lists, k, axis, median, eps, false);
    var l := BuildKdtree(pLeft, depth + 1, k, eps, spec.left);
    var r := BuildKdtree(pRight, depth + 1, k, eps, spec.right);
    t := Split(median, l, r);
  }

  /* ---------------------------------------------------------- build lemmas */

  /** `preprocessed_P`: list `i` is the input sorted on coordinate `i`, and each list is a permutation of it. */
  lemma SortAllSorted(P: seq<Point>, k: nat)
    requires k >= 1 && HasDim(P, k)
    ensures SortedLists(SortAll(P, k), k) && multiset(SortAll(P, k)[0]) == multiset(P)
  {
    var lists := SortAll(P, k);
    forall i | 0 <= i < k
      ensures HasDim(lists[i], k) && multiset(lists[i]) == multiset(lists[0]) && SortedOn(lists[i], i)
    {
      SortOnPermutes(P, i);
      SortOnPermutes(P, 0);
      forall p | p in lists[i] ensures |p| >= k {
        assert p in multiset(lists[i]);
      }
    }
    SortOnPermutes(P, 0);
  }

  /** The built tree is unique: `__build_kdtree` is deterministic. */
  lemma {:induction false} BuildsUnique(lists: seq<seq<Point>>, depth: nat, k: nat, eps: real, t1: Tree, t2: Tree)
    requires Consistent(lists, k) && Builds(lists, depth, k, eps, t1) && Builds(lists, depth, k, eps, t2)
    ensures t1 == t2
    decreases t1
  {
    if |lists[0]| >= 2 {
      var axis := depth % k;
      var median := Median(lists, axis, k);
      SplitConsistent(lists, k, axis, median, eps, true);
      SplitConsistent(lists, k, axis, median, eps, false);
      BuildsUnique(SplitLists(lists, k, axis, median, eps, true), depth + 1, k, eps, t1.left, t2.left);
      BuildsUnique(SplitLists(lists, k, axis, median, eps, false), depth + 1, k, eps, t1.right, t2.right);
    }
  }

  /**
   * `report_subtree` of a built tree returns the input list's points, each as
   * often as the list holds it; the tree has the shape the source expects and
   * every leaf point has the tree's dimension.
   */
  lemma {:induction false} BuildsReports(lists: seq<seq<Point>>, depth: nat, k: nat, eps: real, t: Tree)
    requires Consistent(lists, k) && Builds(lists, depth, k, eps, t)
    ensures multiset(Report(t)) == multiset(lists[0])
    ensures Dims(t, k)
    ensures |lists[0]| >= 1 ==> Proper(t)
    decreases t
  {
    var n := |lists[0]|;
    if n == 1 {
      assert lists[0] == [lists[0][0]];
      assert lists[0][0] in lists[0];
    } else if n >= 2 {
      var axis := depth % k;
      var median := Median(lists, axis, k);
      var L := SplitLists(lists, k, axis, median, eps, true);
      var R := SplitLists(lists, k, axis, median, eps, false);
      SplitConsistent(lists, k, axis, median, eps, true);
      SplitConsistent(lists, k, axis, median, eps, false);
      BuildsReports(L, depth + 1, k, eps, t.left);
      BuildsReports(R, depth + 1, k, eps, t.right);
      PartitionSplits(lists[0], k - 1, axis, median, eps);
      assert |multiset(L[0])| + |multiset(R[0])| == n;
    }
  }

  /** A point that goes left stays within the bounds once the upper bound on the axis becomes the median. */
  lemma TightenUpper(p: Point, lo: seq<Ext>, hi: seq<Ext>, k: nat, eps: real, axis: nat, median: real)
    requires |lo| == k && |hi| == k && axis < k
    requires InBounds(p, lo, hi, k, eps) && GoesLeft(p, axis, median, eps)
    ensures InBounds(p, lo, hi[axis := Fin(median)], k, eps)
  {
  }

  /** A point that goes right stays within the bounds once the lower bound on the axis becomes the median. */
  lemma TightenLower(p: Point, lo: seq<Ext>, hi: seq<Ext>, k: nat, eps: real, axis: nat, median: real)
    requires |lo| == k && |hi| == k && axis < k && eps >= 0.0
    requires InBounds(p, lo, hi, k, eps) && !GoesLeft(p, axis, median, eps)
    ensures InBounds(p, lo[axis := Fin(median)], hi, k, eps)
  {
  }

  /** The points a built tree reports all come from its input list. */
  lemma ReportFromInput(lists: seq<seq<Point>>, depth: nat, k: nat, eps: real, t: Tree, lo: seq<Ext>, hi: seq<Ext>)
    requires Consistent(lists, k) && Builds(lists, depth, k, eps, t)
    requires |lo| == k && |hi| == k
    requires forall p :: p in lists[0] ==> InBounds(p, lo, hi, k, eps)
    ensures forall p :: p in Report(t) ==> InBounds(p, lo, hi, k, eps)
  {
    BuildsReports(lists, depth, k, eps, t);
    forall p | p in Report(t) ensures InBounds(p, lo, hi, k, eps) {
      assert p in multiset(Report(t));
    }
  }

  /**
   * Every leaf of a built tree lies in the region that the search assigns to
   * it: below the split line (up to `eps`) on the left, above it on the right.
   */
  lemma {:induction false} BuildsRegion(lists: seq<seq<Point>>, depth: nat, k: nat, eps: real, t: Tree,
                                        lo: seq<Ext>, hi: seq<Ext>)
    requires Consistent(lists, k) && Builds(lists, depth, k, eps, t) && eps >= 0.0
    requires |lo| == k && |hi| == k
    requires forall p :: p in lists[0] ==> InBounds(p, lo, hi, k, eps)
    ensures InRegion(t, lo, hi, depth, k, eps)
    decreases t
  {
    ReportFromInput(lists, depth, k, eps, t, lo, hi);
    if |lists[0]| >= 2 {
      var axis := depth % k;
      var median := Median(lists, axis, k);
      var L := SplitLists(lists, k, axis, median, eps, true);
      var R := SplitLists(lists, k, axis, median, eps, false);
      SplitConsistent(lists, k, axis, median, eps, true);
      SplitConsistent(lists, k, axis, median, eps, false);
      KeepSound(lists[0], axis, median, eps, true);
      KeepSound(lists[0], axis, median, eps, false);
      var hiL, loR := hi[axis := Fin(median)], lo[axis := Fin(median)];
      forall p | p in L[0] ensures InBounds(p, lo, hiL, k, eps) {
        TightenUpper(p, lo, hi, k, eps, axis, median);
      }
      forall p | p in R[0] ensures InBounds(p, loR, hi, k, eps) {
        TightenLower(p, lo, hi, k, eps, axis, median);
      }
      BuildsRegion(L, depth + 1, k, eps, t.left, lo, hiL);
      BuildsRegion(R, depth + 1, k, eps, t.right, loR, hi);
    }
  }

  /**
   * At a node, the line is the lower median of the list sorted on the active
   * axis: the element at index `(n - 1) / 2`, no smaller than the points
   * before it and no larger than those after it.
   */
  lemma SplitIsLowerMedian(lists: seq<seq<Point>>, depth: nat, k: nat, eps: real, t: Tree)
    requires SortedLists(lists, k) && Builds(lists, depth, k, eps, t) && t.Split?
    ensures |lists[depth % k]| == |lists[0]| >= 2
    ensures t.line == lists[depth % k][(|lists[0]| - 1) / 2][depth % k]
    ensures forall j :: 0 <= j <= (|lists[0]| - 1) / 2 ==> lists[depth % k][j][depth % k] <= t.line
    ensures forall j :: (|lists[0]| - 1) / 2 <= j < |lists[0]| ==> t.line <= lists[depth % k][j][depth % k]
  {
    SameLength(lists, k, depth % k);
  }

  /** If the first `c` points of `s` go left, the left side holds at least `c` points. */
  lemma {:induction false} KeepAtLeast(s: seq<Point>, axis: nat, median: real, eps: real, c: nat)
    requires HasDim(s, axis + 1) && c <= |s|
    requires forall j :: 0 <= j < c ==> GoesLeft(s[j], axis, median, eps)
    ensures |Keep(s, axis, median, eps, true)| >= c
  {
    if s != [] {
      var init := s[..|s| - 1];
      if c == |s| {
        KeepAtLeast(init, axis, median, eps, c - 1);
      } else {
        KeepAtLeast(init, axis, median, eps, c);
      }
    }
  }

  /**
   * With `eps >= 0` the left child is never empty: it receives at least the
   * lower half, `(n - 1) / 2 + 1` of the `n` points, because every point up to
   * the median in the sorted list passes the test.
   */
  lemma LeftHoldsLowerHalf(lists: seq<seq<Point>>, depth: nat, k: nat, eps: real, t: Tree)
    requires SortedLists(lists, k) && Builds(lists, depth, k, eps, t) && t.Split? && eps >= 0.0
    ensures |Report(t.left)| >= (|lists[0]| - 1) / 2 + 1
  {
    var axis := depth % k;
    var median := Median(lists, axis, k);
    var L := SplitLists(lists, k, axis, median, eps, true);
    SplitConsistent(lists, k, axis, median, eps, true);
    SplitIsLowerMedian(lists, depth, k, eps, t);
    KeepAtLeast(lists[axis], axis, median, eps, (|lists[0]| - 1) / 2 + 1);
    BuildsReports(L, depth + 1, k, eps, t.left);
    SameLength(L, k, axis);
    assert |multiset(Report(t.left))| == |multiset(L[0])|;
  }

  /* ------------------------------------------------------------ divergence */

  /** On every axis, every point passes the left test against that axis's median: no axis separates. */
  predicate Stuck(lists: seq<seq<Point>>, k: nat, eps: real)
    requires Consistent(lists, k) && |lists[0]| >= 1
  {
    forall a :: 0 <= a < k ==> forall p :: p in lists[0] ==> GoesLeft(p, a, Median(lists, a, k), eps)
  }

  /** A list whose points all go left is passed on unchanged. */
  lemma {:induction false} KeepAll(s: seq<Point>, axis: nat, median: real, eps: real)
    requires HasDim(s, axis + 1)
    requires forall p :: p in s ==> GoesLeft(p, axis, median, eps)
    ensures Keep(s, axis, median, eps, true) == s
  {
    if s != [] {
      assert s == s[..|s| - 1] + [s[|s| - 1]];
      KeepAll(s[..|s| - 1], axis, median, eps);
    }
  }

  /**
   * Non-termination: when no axis separates the points, every node passes its
   * whole lists to its left child at the next depth, so no finite tree is
   * built (the source recurses until the interpreter's stack overflows).
   */
  lemma {:induction false} StuckDiverges(lists: seq<seq<Point>>, depth: nat, k: nat, eps: real, t: Tree)
    requires Consistent(lists, k) && |lists[0]| >= 2 && Stuck(lists, k, eps)
    ensures !Builds(lists, depth, k, eps, t)
    decreases t
  {
    var axis := depth % k;
    var median := Median(lists, axis, k);
    var L := SplitLists(lists, k, axis, median, eps, true);
    forall i | 0 <= i < k ensures L[i] == lists[i] {
      forall p | p in lists[i] ensures GoesLeft(p, axis, median, eps) {
        assert p in multiset(lists[i]);
      }
      KeepAll(lists[i], axis, median, eps);
    }
    assert L == lists;
    if t.Split? {
      StuckDiverges(lists, depth + 1, k, eps, t.left);
    }
  }

  /** The three corner points `(1, 2)`, `(2, 1)` and `(2, 2)`. */
  function Corner(): seq<Point>
  {
    [[1.0, 2.0], [2.0, 1.0], [2.0, 2.0]]
  }

  /** A point whose key is at least those of two others goes after both. */
  lemma InsertAfterPair(x: Point, a: Point, b: Point, axis: nat)
    requires axis < |x| && axis < |a| && axis < |b|
    requires a[axis] <= x[axis] && b[axis] <= x[axis]
    ensures InsertOn(x, [a, b], axis) == [a, b, x]
  {
    assert [a, b][1..] == [b] && [b][1..] == [];
    assert InsertOn(x, [b], axis) == [b, x];
  }

  /** Sorting two points swaps them exactly when the second is smaller. */
  lemma SortOnPair(a: Point, b: Point, axis: nat)
    requires axis < |a| && axis < |b|
    ensures SortOn([a, b], axis) == if a[axis] <= b[axis] then [a, b] else [b, a]
  {
    assert [a][..0] == [] && [a][1..] == [];
    assert SortOn([a], axis) == [a];
    assert [a, b][..1] == [a];
    assert SortOn([a, b], axis) == InsertOn(b, [a], axis);
  }

  /** Sorting three points inserts the third into the sorted first two. */
  lemma SortOnTriple(a: Point, b: Point, c: Point, axis: nat)
    requires axis < |a| && axis < |b| && axis < |c|
    ensures SortOn([a, b, c], axis) == InsertOn(c, SortOn([a, b], axis), axis)
  {
    assert [a, b, c][..2] == [a, b];
  }

  /** Three points already in order on `axis` are left in place. */
  lemma SortThreeInOrder(a: Point, b: Point, c: Point, axis: nat)
    requires axis < |a| && axis < |b| && axis < |c|
    requires a[axis] <= b[axis] <= c[axis]
    ensures SortOn([a, b, c], axis) == [a, b, c]
  {
    SortOnTriple(a, b, c, axis);
    SortOnPair(a, b, axis);
    InsertAfterPair(c, a, b, axis);
  }

  /** Of three points whose first two are out of order on `axis` and whose third is largest, the first two swap. */
  lemma SortThreeSwapFront(a: Point, b: Point, c: Point, axis: nat)
    requires axis < |a| && axis < |b| && axis < |c|
    requires b[axis] < a[axis] <= c[axis]
    ensures SortOn([a, b, c], axis) == [b, a, c]
  {
    SortOnTriple(a, b, c, axis);
    SortOnPair(a, b, axis);
    InsertAfterPair(c, b, a, axis);
  }

  /** The corner points sorted on x: their input order. */
  lemma CornerSortedOnX()
    ensures SortOn(Corner(), 0) == Corner()
  {
    var P := Corner();
    SortThreeInOrder(P[0], P[1], P[2], 0);
  }

  /** The corner points sorted on y: `(2, 1)` first, the rest in input order. */
  lemma CornerSortedOnY()
    ensures SortOn(Corner(), 1) == [[2.0, 1.0], [1.0, 2.0], [2.0, 2.0]]
  {
    var P := Corner();
    SortThreeSwapFront(P[0], P[1], P[2], 1);
  }

  /** `preprocessed_P` for the corner points: sorted on x, then sorted on y. */
  function CornerLists(): seq<seq<Point>>
  {
    [[[1.0, 2.0], [2.0, 1.0], [2.0, 2.0]], [[2.0, 1.0], [1.0, 2.0], [2.0, 2.0]]]
  }

  /** In the plane, `preprocessed_P` is the list sorted on x followed by the list sorted on y. */
  lemma SortAllPlane(P: seq<Point>)
    requires HasDim(P, 2)
    ensures SortAll(P, 2) == [SortOn(P, 0), SortOn(P, 1)]
  {
  }

  lemma CornerPreprocessed()
    ensures SortAll(Corner(), 2) == CornerLists()
  {
    SortAllPlane(Corner());
    CornerSortedOnX();
    CornerSortedOnY();
  }

  lemma CornerSortedLists()
    ensures SortedLists(CornerLists(), 2)
  {
    SortAllSorted(Corner(), 2);
    CornerPreprocessed();
  }

  /** No axis separates the corner points: on both, the lower median is 2 and every point goes left. */
  lemma CornerStuck()
    ensures SortedLists(CornerLists(), 2)
    ensures Stuck(CornerLists(), 2, 0.0)
  {
    CornerSortedLists();
    var lists := CornerLists();
    forall a | 0 <= a < 2 ensures forall p :: p in lists[0] ==> GoesLeft(p, a, Median(lists, a, 2), 0.0) {
      assert Median(lists, a, 2) == 2.0;
    }
  }

  /**
   * Three distinct points on which `__build_kdtree` never returns with
   * `eps = 0`: distinctness alone does not make the build terminate.
   */
  lemma CornerDiverges(t: Tree)
    ensures !BuildsFrom(Corner(), 2, 0.0, t)
  {
    CornerPreprocessed();
    CornerStuck();
    StuckDiverges(SortAll(Corner(), 2), 0, 2, 0.0, t);
  }

  /* ------------------------------------------------------------ __init__ */

  /** The errors `KDtree.__init__` raises. */
  datatype KdError = ValueError | TypeError | IndexError

  /** A k-d tree: the fields `k`, `eps` and `root` of class `KDtree`, fixed after construction. */
  datatype KdTree = KdTree(k: nat, eps: real, root: Tree)

  /** `t` is the tree `__init__` builds from `P`: the build run on `P` sorted once per axis, from depth 0. */
  ghost predicate BuildsFrom(P: seq<Point>, k: nat, eps: real, t: Tree)
    requires k >= 1 && HasDim(P, k)
  {
    SortAllSorted(P, k);
    Builds(SortAll(P, k), 0, k, eps, t)
  }

  /**
   * `KDtree(P, k, eps)`. An empty `P` raises ValueError and a first point of
   * the wrong length TypeError; only `P[0]` is checked, so a later point with
   * fewer than `k` coordinates (or `k == 0`) fails with IndexError while
   * sorting or building, and a later point with more is accepted. The ghost
   * `spec` is the tree the build returns; it exists exactly when the build
   * terminates.
   */
  method NewKdTree(P: seq<Point>, k: int, eps: real, ghost spec: Tree) returns (r: Result<KdTree, KdError>)
    requires P != [] && k >= 1 && |P[0]| == k && HasDim(P, k) ==> BuildsFrom(P, k, eps, spec)
    ensures P == [] ==> r == Err(ValueError)
    ensures P != [] && |P[0]| != k ==> r == Err(TypeError)
    ensures P != [] && |P[0]| == k && (k == 0 || !HasDim(P, k)) ==> r == Err(IndexError)
    ensures P != [] && |P[0]| == k && k >= 1 && HasDim(P, k) ==> r.Ok?
    ensures r.Ok? ==> k >= 1 && HasDim(P, k) && r.value.k == k && r.value.eps == eps && BuildsFrom(P, k, eps, r.value.root)
    ensures r.Ok? ==> multiset(Report(r.value.root)) == multiset(P) && Proper(r.value.root) && Dims(r.value.root, k)
    ensures r.Ok? && eps >= 0.0 ==> InRegion(r.value.root, NegInfs(k), PosInfs(k), 0, k, eps)
  {
    if P == [] { return Err(ValueError); }
    if |P[0]| != k { return Err(TypeError); }
    if k == 0 || !HasDim(P, k) { return Err(IndexError); }
    var sorted := SortAll(P, k);
    SortAllSorted(P, k);
    var root := BuildKdtree(sorted, 0, k, eps, spec);
    BuildsReports(sorted, 0, k, eps, root);
    if eps >= 0.0 {
      BuildsRegion(sorted, 0, k, eps, root, NegInfs(k), PosInfs(k));
    }
    r := Ok(KdTree(k, eps, root));
  }
}
