/**
 * The bounding-volume hierarchy of the second ray tracer (`Bvh`, `BvhNode`).
 *
 * The shared surface array is a sequence of items, each carrying its surface, its
 * bounding box and its average position (the centroid the sort keys on). Construction
 * is a pure function from the array to the permuted array and the tree. A surface's own
 * intersection routine is a parameter `hit`: given a surface and a ray it answers the
 * parameter t of the hit, or None.
 */
module Bvh {
  import opened Wrappers
  import opened Geometry
  import opened Aabb

  datatype Item<S> = Item(surf: S, box: Box, avg: V3)

  /**
   * A BVH node over the index range [start, end) of the shared array. Java's `BvhNode`
   * has two child references that are both null for a leaf; the two constructors say
   * the same thing.
   */
  datatype Node =
    | Leaf(box: Box, start: int, end: int)
    | Inner(box: Box, start: int, end: int, left: Node, right: Node)

  /** Ranges of at most this many surfaces become leaves. */
  const LeafSize: int := 10

  /** `BvhNode.isLeaf`: both children absent. */
  predicate IsLeaf(n: Node) {
    n.Leaf?
  }

  // ---------------------------------------------------------------- construction

  /** The box enclosing the boxes of a non-empty run of items. */
  function Bounds<S>(items: seq<Item<S>>): Box
    requires |items| > 0
  {
    RangeBox(seq(|items|, i requires 0 <= i < |items| => items[i].box))
  }

  lemma BoundsContainsEach<S>(items: seq<Item<S>>, i: int)
    requires 0 <= i < |items|
    ensures Contains(Bounds(items), items[i].box)
  {
    RangeBoxContainsEach(seq(|items|, i requires 0 <= i < |items| => items[i].box), i);
  }

  lemma BoundsLeast<S>(items: seq<Item<S>>, outer: Box)
    requires |items| > 0
    requires forall i :: 0 <= i < |items| ==> Contains(outer, items[i].box)
    ensures Contains(outer, Bounds(items))
  {
    RangeBoxLeast(seq(|items|, i requires 0 <= i < |items| => items[i].box), outer);
  }

  /**
   * The split axis of `createTree`: x only if strictly wider than both others, y only if
   * strictly wider than both others, and z in every other case (ties included).
   */
  function WidestAxis(b: Box): (a: Axis)
    ensures a == AxisX <==> b.hi.x - b.lo.x > b.hi.y - b.lo.y && b.hi.x - b.lo.x > b.hi.z - b.lo.z
    ensures a == AxisY <==>
      (!(b.hi.x - b.lo.x > b.hi.y - b.lo.y && b.hi.x - b.lo.x > b.hi.z - b.lo.z)
       && b.hi.y - b.lo.y > b.hi.x - b.lo.x && b.hi.y - b.lo.y > b.hi.z - b.lo.z)
  {
    var xw, yw, zw := b.hi.x - b.lo.x, b.hi.y - b.lo.y, b.hi.z - b.lo.z;
    if xw > yw && xw > zw then AxisX
    else if yw > xw && yw > zw then AxisY
    else AxisZ
  }

  /** The sort key: the average position on the split axis. */
  function Key<S>(it: Item<S>, axis: Axis): real {
    Get(it.avg, axis)
  }

  /** Keys never increase along the sequence; `MyComparator` puts larger centroids first. */
  ghost predicate SortedDesc<S>(s: seq<Item<S>>, axis: Axis) {
    forall i, j :: 0 <= i < j < |s| ==> Key(s[i], axis) >= Key(s[j], axis)
  }

  /**
   * Insert x in front of the first element whose key is not larger than x's. Items equal
   * in key keep x in front, so inserting from right to left is stable like `Arrays.sort`.
   */
  function Insert<S>(x: Item<S>, s: seq<Item<S>>, axis: Axis): (r: seq<Item<S>>)
    ensures multiset(r) == multiset(s) + multiset{x}
    ensures |r| == |s| + 1
  {
    if |s| == 0 || Key(x, axis) >= Key(s[0], axis) then [x] + s
    else
      assert s == [s[0]] + s[1..];
      [s[0]] + Insert(x, s[1..], axis)
  }

  /** `Arrays.sort(surfaces, start, end, cmp)` on the extracted range. */
  function SortDesc<S>(s: seq<Item<S>>, axis: Axis): (r: seq<Item<S>>)
    ensures multiset(r) == multiset(s)
    ensures |r| == |s|
  {
    if |s| == 0 then []
    else
      assert s == [s[0]] + s[1..];
      Insert(s[0], SortDesc(s[1..], axis), axis)
  }

  lemma {:induction false} InsertSorted<S>(x: Item<S>, s: seq<Item<S>>, axis: Axis)
    requires SortedDesc(s, axis)
    ensures SortedDesc(Insert(x, s, axis), axis)
    ensures |s| > 0 && Key(x, axis) < Key(s[0], axis) ==> Insert(x, s, axis)[0] == s[0]
  {
    if |s| == 0 || Key(x, axis) >= Key(s[0], axis) {
    } else {
      InsertSorted(x, s[1..], axis);
      InsertBounded(x, s[1..], axis, Key(s[0], axis));
      var r := Insert(x, s, axis);
      var t := Insert(x, s[1..], axis);
      assert r == [s[0]] + t;
      forall i, j | 0 <= i < j < |r| ensures Key(r[i], axis) >= Key(r[j], axis) {
        assert r[j] == t[j - 1];
        if i > 0 {
          assert r[i] == t[i - 1];
        }
      }
    }
  }

  /** Inserting keeps every key under a bound that x and all of s respect. */
  lemma {:induction false} InsertBounded<S>(x: Item<S>, s: seq<Item<S>>, axis: Axis, k: real)
    requires Key(x, axis) <= k && forall i :: 0 <= i < |s| ==> Key(s[i], axis) <= k
    ensures forall i :: 0 <= i < |Insert(x, s, axis)| ==> Key(Insert(x, s, axis)[i], axis) <= k
  {
    if |s| > 0 && Key(x, axis) < Key(s[0], axis) {
      InsertBounded(x, s[1..], axis, k);
      assert Insert(x, s, axis) == [s[0]] + Insert(x, s[1..], axis);
    }
  }

  /** The sort leaves its range in non-increasing centroid order. */
  lemma {:induction false} SortDescSorted<S>(s: seq<Item<S>>, axis: Axis)
    ensures SortedDesc(SortDesc(s, axis), axis)
  {
    if |s| > 0 {
      SortDescSorted(s[1..], axis);
      InsertSorted(s[0], SortDesc(s[1..], axis), axis);
    }
  }

  /**
   * `createTree(start, end)`: the node for [start, end) and the shared array as it stands
   * afterwards. The node's box is the min/max of the range's boxes taken before sorting;
   * a range of at most 10 is a leaf, otherwise the range is sorted on the widest axis and
   * split at the integer midpoint.
   */
  function CreateTree<S>(items: seq<Item<S>>, start: int, end: int): (r: (seq<Item<S>>, Node))
    requires 0 <= start < end <= |items|
    ensures |r.0| == |items|
    ensures r.0[..start] == items[..start] && r.0[end..] == items[end..]
    ensures multiset(r.0[start..end]) == multiset(items[start..end])
    decreases end - start
  {
    var box := Bounds(items[start..end]);
    if end - start <= LeafSize then (items, Leaf(box, start, end))
    else
      var axis := WidestAxis(box);
      var sorted := items[..start] + SortDesc(items[start..end], axis) + items[end..];
      var mid := (start + end) / 2;
      SpliceFacts(items, SortDesc(items[start..end], axis), start, end);
      var (items1, left) := CreateTree(sorted, start, mid);
      var (items2, right) := CreateTree(items1, mid, end);
      SliceFacts(items, sorted, items1, items2, start, mid, end);
      (items2, Inner(box, start, end, left, right))
  }

  lemma MiddleOfConcat<T>(a: seq<T>, m: seq<T>, b: seq<T>)
    ensures (a + m + b)[|a|..|a| + |m|] == m
  {
  }

  lemma SplitSlice<T>(s: seq<T>, a: int, b: int, c: int)
    requires 0 <= a <= b <= c <= |s|
    ensures s[a..c] == s[a..b] + s[b..c]
  {
  }

  /** Splicing a permutation of [start, end) back in leaves the rest of the array alone. */
  lemma SpliceFacts<S>(items: seq<Item<S>>, m: seq<Item<S>>, start: int, end: int)
    requires 0 <= start < end <= |items| && multiset(m) == multiset(items[start..end])
    ensures var sorted := items[..start] + m + items[end..];
      |sorted| == |items| && sorted[..start] == items[..start] && sorted[end..] == items[end..]
      && multiset(sorted[start..end]) == multiset(items[start..end])
  {
    var sorted := items[..start] + m + items[end..];
    assert |m| == |multiset(m)| == end - start;
    MiddleOfConcat(items[..start], m, items[end..]);
    assert sorted[..start] == items[..start];
    assert sorted[end..] == items[end..];
  }

  /** The sequence bookkeeping behind the frame and permutation clauses of CreateTree. */
  lemma SliceFacts<S>(items: seq<Item<S>>, sorted: seq<Item<S>>, items1: seq<Item<S>>, items2: seq<Item<S>>,
                      start: int, mid: int, end: int)
    requires 0 <= start < mid < end <= |items|
    requires |sorted| == |items1| == |items2| == |items|
    requires sorted[..start] == items[..start] && sorted[end..] == items[end..]
    requires multiset(sorted[start..end]) == multiset(items[start..end])
    requires items1[..start] == sorted[..start] && items1[mid..] == sorted[mid..]
    requires multiset(items1[start..mid]) == multiset(sorted[start..mid])
    requires items2[..mid] == items1[..mid] && items2[end..] == items1[end..]
    requires multiset(items2[mid..end]) == multiset(items1[mid..end])
    ensures items2[..start] == items[..start] && items2[end..] == items[end..]
    ensures multiset(items2[start..end]) == multiset(items[start..end])
  {
    assert items2[..start] == items2[..mid][..start];
    assert items1[..start] == items1[..mid][..start];
    assert items1[end..] == items1[mid..][end - mid..];
    assert sorted[end..] == sorted[mid..][end - mid..];
    assert items1[mid..end] == items1[mid..][..end - mid];
    assert sorted[mid..end] == sorted[mid..][..end - mid];
    assert items2[start..mid] == items2[..mid][start..];
    assert items1[start..mid] == items1[..mid][start..];
    assert items2[start..end] == items2[start..mid] + items2[mid..end];
    assert items1[start..end] == items1[start..mid] + items1[mid..end];
    assert sorted[start..end] == sorted[start..mid] + sorted[mid..end];
  }

  /** `Bvh.build`: the tree over [0, n) of the very array passed in; no tree for no surfaces. */
  function Build<S>(items: seq<Item<S>>): (r: (seq<Item<S>>, Option<Node>))
    ensures multiset(r.0) == multiset(items)
    ensures r.1.Some? <==> |items| > 0
  {
    if |items| == 0 then (items, None)
    else
      var (items1, root) := CreateTree(items, 0, |items|);
      assert items1[0..|items|] == items1 && items[0..|items|] == items;
      (items1, Some(root))
  }

  // ---------------------------------------------------------------- tree invariant

  /**
   * The shape `createTree` produces over [s, e): the node records its range, leaves hold
   * at most 10 surfaces, inner nodes split at the midpoint, every surface box lies in its
   * node's box and every child's box lies in its parent's.
   */
  ghost predicate Valid<S>(n: Node, items: seq<Item<S>>, s: int, e: int)
    decreases n
  {
    n.start == s && n.end == e && 0 <= s < e <= |items|
    && (forall i :: s <= i < e ==> Contains(n.box, items[i].box))
    && match n
       case Leaf(_, _, _) => e - s <= LeafSize
       case Inner(_, _, _, l, r) =>
         e - s > LeafSize
         && Valid(l, items, s, (s + e) / 2) && Valid(r, items, (s + e) / 2, e)
         && Contains(n.box, l.box) && Contains(n.box, r.box)
  }

  /** Validity over [s, e) depends only on the items in that range. */
  lemma {:induction false} ValidFrame<S>(n: Node, items: seq<Item<S>>, items': seq<Item<S>>, s: int, e: int)
    requires Valid(n, items, s, e)
    requires |items'| == |items|
    requires forall i :: s <= i < e ==> items'[i] == items[i]
    ensures Valid(n, items', s, e)
    decreases n
  {
    match n
    case Leaf(_, _, _) =>
    case Inner(_, _, _, l, r) =>
      ValidFrame(l, items, items', s, (s + e) / 2);
      ValidFrame(r, items, items', (s + e) / 2, e);
  }

  /** Items drawn from a run all of whose boxes lie in `outer` also have their boxes there. */
  lemma BoxesInFromMultiset<S>(a: seq<Item<S>>, b: seq<Item<S>>, outer: Box)
    requires multiset(a) <= multiset(b)
    requires forall j :: 0 <= j < |b| ==> Contains(outer, b[j].box)
    ensures forall i :: 0 <= i < |a| ==> Contains(outer, a[i].box)
  {
    forall i | 0 <= i < |a| ensures Contains(outer, a[i].box) {
      assert a[i] in multiset(a);
      assert a[i] in multiset(b);
      var j :| 0 <= j < |b| && b[j] == a[i];
    }
  }

  /** Every item of [s, e) in the final array has its box inside the range's bounds. */
  lemma RangeInBounds<S>(items: seq<Item<S>>, final: seq<Item<S>>, s: int, e: int)
    requires 0 <= s < e <= |items| == |final|
    requires multiset(final[s..e]) == multiset(items[s..e])
    ensures forall i :: s <= i < e ==> Contains(Bounds(items[s..e]), final[i].box)
  {
    var b := Bounds(items[s..e]);
    forall j | 0 <= j < |items[s..e]| ensures Contains(b, items[s..e][j].box) {
      BoundsContainsEach(items[s..e], j);
    }
    BoxesInFromMultiset(final[s..e], items[s..e], b);
    forall i | s <= i < e ensures Contains(b, final[i].box) {
      assert final[i] == final[s..e][i - s];
    }
  }

  /** `createTree` builds a valid tree over its range. */
  lemma {:induction false} CreateTreeValid<S>(items: seq<Item<S>>, start: int, end: int)
    requires 0 <= start < end <= |items|
    ensures Valid(CreateTree(items, start, end).1, CreateTree(items, start, end).0, start, end)
    ensures CreateTree(items, start, end).1.box == Bounds(items[start..end])
    decreases end - start
  {
    var box := Bounds(items[start..end]);
    if end - start > LeafSize {
      var axis := WidestAxis(box);
      var sorted := items[..start] + SortDesc(items[start..end], axis) + items[end..];
      var mid := (start + end) / 2;
      SpliceFacts(items, SortDesc(items[start..end], axis), start, end);
      var (items1, left) := CreateTree(sorted, start, mid);
      var (items2, right) := CreateTree(items1, mid, end);
      CreateTreeValid(sorted, start, mid);
      CreateTreeValid(items1, mid, end);
      MiddleOfConcat(items[..start], SortDesc(items[start..end], axis), items[end..]);
      assert CreateTree(items, start, end) == (items2, Inner(box, start, end, left, right));
      InnerValid(items, sorted, items1, items2, start, mid, end, left, right);
    } else {
      RangeInBounds(items, items, start, end);
    }
  }

  /** The inner-node step of CreateTreeValid. */
  lemma InnerValid<S>(items: seq<Item<S>>, sorted: seq<Item<S>>, items1: seq<Item<S>>, items2: seq<Item<S>>,
                      start: int, mid: int, end: int, left: Node, right: Node)
    requires 0 <= start < mid < end <= |items| && mid == (start + end) / 2 && end - start > LeafSize
    requires |sorted| == |items1| == |items2| == |items|
    requires multiset(sorted[start..end]) == multiset(items[start..end])
    requires items1[mid..] == sorted[mid..]
    requires items2[..mid] == items1[..mid]
    requires multiset(items2[start..end]) == multiset(items[start..end])
    requires Valid(left, items1, start, mid) && left.box == Bounds(sorted[start..mid])
    requires Valid(right, items2, mid, end) && right.box == Bounds(items1[mid..end])
    ensures Valid(Inner(Bounds(items[start..end]), start, end, left, right), items2, start, end)
  {
    var box := Bounds(items[start..end]);
    RangeInBounds(items, items2, start, end);
    forall i | start <= i < mid ensures items2[i] == items1[i] {
      assert items2[i] == items2[..mid][i] && items1[i] == items1[..mid][i];
    }
    ValidFrame(left, items1, items2, start, mid);
    ChildBoxesInside(items, sorted, items1, start, mid, end);
  }

  /** Both halves of the sorted range have their bounds inside the whole range's bounds. */
  lemma ChildBoxesInside<S>(items: seq<Item<S>>, sorted: seq<Item<S>>, items1: seq<Item<S>>,
                            start: int, mid: int, end: int)
    requires 0 <= start < mid < end <= |items| == |sorted| == |items1|
    requires multiset(sorted[start..end]) == multiset(items[start..end])
    requires items1[mid..] == sorted[mid..]
    ensures Contains(Bounds(items[start..end]), Bounds(sorted[start..mid]))
    ensures Contains(Bounds(items[start..end]), Bounds(items1[mid..end]))
  {
    var whole := items[start..end];
    var box := Bounds(whole);
    forall j | 0 <= j < |whole| ensures Contains(box, whole[j].box) {
      BoundsContainsEach(whole, j);
    }
    var lo, hi := sorted[start..mid], sorted[mid..end];
    SplitSlice(sorted, start, mid, end);
    assert multiset(lo) <= multiset(whole) && multiset(hi) <= multiset(whole) by {
      assert multiset(sorted[start..end]) == multiset(lo) + multiset(hi);
    }
    assert hi == items1[mid..end] by {
      assert items1[mid..end] == items1[mid..][..end - mid];
      assert hi == sorted[mid..][..end - mid];
    }
    BoxesInFromMultiset(lo, whole, box);
    BoxesInFromMultiset(hi, whole, box);
    BoundsLeast(lo, box);
    BoundsLeast(hi, box);
  }

  /** `build` yields a valid tree over the whole permuted array. */
  lemma BuildValid<S>(items: seq<Item<S>>)
    requires |items| > 0
    ensures Valid(Build(items).1.value, Build(items).0, 0, |items|)
    ensures Build(items).1.value.box == Bounds(items)
  {
    CreateTreeValid(items, 0, |items|);
    assert items[0..|items|] == items;
  }

  // ---------------------------------------------------------------- partition of the range

  /** The indices of the leaves in left-to-right order. */
  function LeafIndices(n: Node): seq<int>
    decreases n
  {
    match n
    case Leaf(_, s, e) => seq(if e > s then e - s else 0, i => s + i)
    case Inner(_, _, _, l, r) => LeafIndices(l) + LeafIndices(r)
  }

  /** The run s, s+1, ..., e-1. */
  function Run(s: int, e: int): (r: seq<int>)
    requires s <= e
    ensures |r| == e - s && forall i :: 0 <= i < |r| ==> r[i] == s + i
  {
    seq(e - s, i => s + i)
  }

  /**
   * The leaves of a valid tree partition its range: read left to right they enumerate
   * s, s+1, ..., e-1 once each, with no gap or overlap.
   */
  lemma {:induction false} LeavesPartition<S>(n: Node, items: seq<Item<S>>, s: int, e: int)
    requires Valid(n, items, s, e)
    ensures LeafIndices(n) == Run(s, e)
    decreases n
  {
    match n
    case Leaf(_, _, _) =>
    case Inner(_, _, _, l, r) =>
      var mid := (s + e) / 2;
      LeavesPartition(l, items, s, mid);
      LeavesPartition(r, items, mid, e);
      assert Run(s, mid) + Run(mid, e) == Run(s, e);
  }

  /** In a valid tree a range of 20 splits into two leaves of 10. */
  lemma Shape20<S>(n: Node, items: seq<Item<S>>)
    requires Valid(n, items, 0, 20)
    ensures n.Inner? && IsLeaf(n.left) && IsLeaf(n.right)
    ensures n.left.end - n.left.start == 10 && n.right.end - n.right.start == 10
  {
  }

  /** In a valid tree a range of 40 has two inner children and four leaf grandchildren of 10. */
  lemma Shape40<S>(n: Node, items: seq<Item<S>>)
    requires Valid(n, items, 0, 40)
    ensures n.Inner? && n.left.Inner? && n.right.Inner?
    ensures n.left.end - n.left.start == 20 && n.right.end - n.right.start == 20
    ensures IsLeaf(n.left.left) && IsLeaf(n.left.right) && IsLeaf(n.right.left) && IsLeaf(n.right.right)
    ensures n.left.left.end - n.left.left.start == 10 && n.left.right.end - n.left.right.start == 10
    ensures n.right.left.end - n.right.left.start == 10 && n.right.right.end - n.right.right.start == 10
  {
    assert Valid(n.left, items, 0, 20);
    assert Valid(n.right, items, 20, 40);
  }

  /** A single surface gives a leaf whose box is that surface's box. */
  lemma BuildOne<S>(it: Item<S>)
    ensures Build([it]).1 == Some(Leaf(it.box, 0, 1))
  {
    assert [it][0..1] == [it];
  }
}
