/**
 * `Bvh.intersect` and `intersectHelper`: nearest-hit and any-hit traversal of the tree
 * built by `Bvh.CreateTree`.
 *
 * The surfaces' own intersection routines are one parameter `hit`: `hit(s, ray)` is the
 * parameter t of the hit `s.intersect` reports for a ray with that start and end, or
 * None. The output record is modelled by the surface hit and its t.
 */
module BvhTraversal {
  import opened Wrappers
  import opened Geometry
  import opened Aabb
  import opened Bvh

  datatype Hit<S> = Hit(surf: S, t: real)

  /** The bound of an extended real: a <= b. */
  predicate ExtLe(a: Ext, b: Ext) {
    b.PosInf? || (a.Fin? && a.v <= b.v)
  }

  /**
   * The leaf test `surfaces[i].intersect(tmpRecord, tmpRay) && tmpRecord.t < tmpRay.end`:
   * the surface's hit, kept only when it lies strictly before the ray's end.
   */
  function HitBelow<S>(hit: (S, Ray) -> Option<real>, s: S, r: Ray): (o: Option<real>)
    ensures o.Some? ==> hit(s, r) == o && Below(o.value, r.end)
    ensures o.None? ==> hit(s, r).None? || !Below(hit(s, r).value, r.end)
  {
    match hit(s, r)
    case Some(t) => if Below(t, r.end) then Some(t) else None
    case None => None
  }

  /** Keep a hit only when it lies strictly before the bound e. */
  function Filter(o: Option<real>, e: Ext): Option<real> {
    if o.Some? && Below(o.value, e) then o else None
  }

  /**
   * Shortening a ray's end does not change which hit a surface reports before the new
   * end: the surfaces report their nearest hit in the window, so asking again with a
   * shorter window finds the same one if it lies before the new end, and none otherwise.
   */
  ghost predicate Consistent<S(!new)>(hit: (S, Ray) -> Option<real>) {
    forall s: S, r: Ray, e: Ext ::
      ExtLe(e, r.end) ==> HitBelow(hit, s, r.(end := e)) == Filter(HitBelow(hit, s, r), e)
  }

  /**
   * A surface's hits lie at or after the ray start and inside its bounding box: the
   * property that makes culling by boxes sound.
   */
  ghost predicate SoundItem<S>(hit: (S, Ray) -> Option<real>, it: Item<S>) {
    WellFormed(it.box)
    && forall r: Ray :: hit(it.surf, r).Some? ==>
         r.start <= hit(it.surf, r).value && Inside(it.box, PointAt(r, hit(it.surf, r).value))
  }

  ghost predicate Sound<S>(hit: (S, Ray) -> Option<real>, items: seq<Item<S>>) {
    forall i :: 0 <= i < |items| ==> SoundItem(hit, items[i])
  }

  // ---------------------------------------------------------------- the model of the code

  /**
   * The leaf loop of `intersectHelper` in nearest-hit mode, from surface i on: each hit
   * before the current end shortens the ray to it and overwrites the record.
   */
  function LeafScan<S>(items: seq<Item<S>>, i: int, e: int, hit: (S, Ray) -> Option<real>, r: Ray,
                       found: bool, out: Option<Hit<S>>): (bool, Option<Hit<S>>)
    requires 0 <= i <= e <= |items|
    decreases e - i
  {
    if i == e then (found, out)
    else match HitBelow(hit, items[i].surf, r)
      case Some(t) => LeafScan(items, i + 1, e, hit, WithEnd(r, t), true, Some(Hit(items[i].surf, t)))
      case None => LeafScan(items, i + 1, e, hit, r, found, out)
  }

  /** The leaf loop in any-hit mode: true at the first surface hit before the ray's end. */
  function AnyScan<S>(items: seq<Item<S>>, i: int, e: int, hit: (S, Ray) -> Option<real>, r: Ray): bool
    requires 0 <= i <= e <= |items|
    decreases e - i
  {
    i < e && (HitBelow(hit, items[i].surf, r).Some? || AnyScan(items, i + 1, e, hit, r))
  }

  /** Node ranges lie within the shared array. */
  predicate InBounds(n: Node, len: int)
    decreases n
  {
    0 <= n.start <= n.end <= len
    && match n
       case Leaf(_, _, _) => true
       case Inner(_, _, _, l, rt) => InBounds(l, len) && InBounds(rt, len)
  }

  /**
   * `intersectHelper` in nearest-hit mode. A missed box returns false without touching
   * the record. A leaf scans its range. An inner node searches both children with fresh
   * records and then overwrites the record with the left one when the left hit and
   * either the right missed or the left is strictly nearer, and with the right one
   * otherwise (an empty record when both missed).
   */
  function Nearest<S>(n: Node, items: seq<Item<S>>, hit: (S, Ray) -> Option<real>, r: Ray,
                      out: Option<Hit<S>>): (bool, Option<Hit<S>>)
    requires InBounds(n, |items|)
    decreases n
  {
    if !Intersects(n.box, r) then (false, out)
    else match n
      case Leaf(_, s, e) => LeafScan(items, s, e, hit, r, false, out)
      case Inner(_, _, _, l, rt) =>
        var (lf, lrec) := Nearest(l, items, hit, r, None);
        var (rf, rrec) := Nearest(rt, items, hit, r, None);
        (lf || rf, if lrec.Some? && (rrec.None? || lrec.value.t < rrec.value.t) then lrec else rrec)
  }

  /** `intersectHelper` in any-hit mode: the record is never written. */
  function AnyHit<S>(n: Node, items: seq<Item<S>>, hit: (S, Ray) -> Option<real>, r: Ray): bool
    requires InBounds(n, |items|)
    decreases n
  {
    Intersects(n.box, r)
    && match n
       case Leaf(_, s, e) => AnyScan(items, s, e, hit, r)
       case Inner(_, _, _, l, rt) => AnyHit(l, items, hit, r) || AnyHit(rt, items, hit, r)
  }

  /** `Bvh.intersect(outRecord, ray, anyIntersection)`; an empty scene has no tree and no hit. */
  function Intersect<S>(tree: Option<Node>, items: seq<Item<S>>, hit: (S, Ray) -> Option<real>, r: Ray,
                        out: Option<Hit<S>>, anyIntersection: bool): (bool, Option<Hit<S>>)
    requires tree.Some? ==> InBounds(tree.value, |items|)
  {
    match tree
    case None => (false, out)
    case Some(root) =>
      if anyIntersection then (AnyHit(root, items, hit, r), out)
      else Nearest(root, items, hit, r, out)
  }

  // ---------------------------------------------------------------- any-hit agrees with nearest-hit

  lemma {:induction false} ScanKeepsFound<S>(items: seq<Item<S>>, i: int, e: int, hit: (S, Ray) -> Option<real>,
                                             r: Ray, out: Option<Hit<S>>)
    requires 0 <= i <= e <= |items|
    ensures LeafScan(items, i, e, hit, r, true, out).0
    decreases e - i
  {
    if i < e {
      match HitBelow(hit, items[i].surf, r)
      case Some(t) => ScanKeepsFound(items, i + 1, e, hit, WithEnd(r, t), Some(Hit(items[i].surf, t)));
      case None => ScanKeepsFound(items, i + 1, e, hit, r, out);
    }
  }

  /** A leaf reports a hit in nearest mode exactly when it reports one in any-hit mode. */
  lemma {:induction false} LeafModesAgree<S>(items: seq<Item<S>>, i: int, e: int, hit: (S, Ray) -> Option<real>,
                                             r: Ray, out: Option<Hit<S>>)
    requires 0 <= i <= e <= |items|
    ensures LeafScan(items, i, e, hit, r, false, out).0 == AnyScan(items, i, e, hit, r)
    decreases e - i
  {
    if i < e {
      match HitBelow(hit, items[i].surf, r)
      case Some(t) => ScanKeepsFound(items, i + 1, e, hit, WithEnd(r, t), Some(Hit(items[i].surf, t)));
      case None => LeafModesAgree(items, i + 1, e, hit, r, out);
    }
  }

  /**
   * Any-hit traversal answers true exactly when nearest-hit traversal does, for every
   * surface routine and every tree: the early return only saves work.
   */
  lemma {:induction false} AnyHitAgreesWithNearest<S>(n: Node, items: seq<Item<S>>, hit: (S, Ray) -> Option<real>,
                                                      r: Ray, out: Option<Hit<S>>)
    requires InBounds(n, |items|)
    ensures AnyHit(n, items, hit, r) == Nearest(n, items, hit, r, out).0
    decreases n
  {
    if Intersects(n.box, r) {
      match n
      case Leaf(_, s, e) => LeafModesAgree(items, s, e, hit, r, out);
      case Inner(_, _, _, l, rt) =>
        AnyHitAgreesWithNearest(l, items, hit, r, None);
        AnyHitAgreesWithNearest(rt, items, hit, r, None);
    }
  }

  /**
   * The code overrides its own documentation: an inner node whose box the ray enters
   * replaces the caller's record even when nothing under it is hit.
   */
  lemma InnerMissClearsRecord<S>(n: Node, items: seq<Item<S>>, hit: (S, Ray) -> Option<real>, r: Ray,
                                 out: Option<Hit<S>>)
    requires InBounds(n, |items|) && n.Inner? && Intersects(n.box, r)
    requires !Nearest(n, items, hit, r, out).0
    ensures Nearest(n, items, hit, r, out).1 == None
  {
    AnyHitAgreesWithNearest(n.left, items, hit, r, None);
    AnyHitAgreesWithNearest(n.right, items, hit, r, None);
    NoHitNoRecord(n.left, items, hit, r);
    NoHitNoRecord(n.right, items, hit, r);
  }

  /** Started from an empty record, a traversal that finds nothing leaves it empty. */
  lemma {:induction false} NoHitNoRecord<S>(n: Node, items: seq<Item<S>>, hit: (S, Ray) -> Option<real>, r: Ray)
    requires InBounds(n, |items|)
    ensures Nearest(n, items, hit, r, None).1.Some? == Nearest(n, items, hit, r, None).0
    decreases n
  {
    if Intersects(n.box, r) {
      match n
      case Leaf(_, s, e) => ScanRecordIffFound(items, s, e, hit, r);
      case Inner(_, _, _, l, rt) =>
        NoHitNoRecord(l, items, hit, r);
        NoHitNoRecord(rt, items, hit, r);
    }
  }

  lemma {:induction false} ScanRecordIffFound<S>(items: seq<Item<S>>, i: int, e: int, hit: (S, Ray) -> Option<real>, r: Ray)
    requires 0 <= i <= e <= |items|
    ensures LeafScan(items, i, e, hit, r, false, None).1.Some? == LeafScan(items, i, e, hit, r, false, None).0
    decreases e - i
  {
    if i < e {
      match HitBelow(hit, items[i].surf, r)
      case Some(t) => ScanSomeStays(items, i + 1, e, hit, WithEnd(r, t), Hit(items[i].surf, t));
      case None => ScanRecordIffFound(items, i + 1, e, hit, r);
    }
  }

  lemma {:induction false} ScanSomeStays<S>(items: seq<Item<S>>, i: int, e: int, hit: (S, Ray) -> Option<real>,
                                            r: Ray, h: Hit<S>)
    requires 0 <= i <= e <= |items|
    ensures LeafScan(items, i, e, hit, r, true, Some(h)).0 && LeafScan(items, i, e, hit, r, true, Some(h)).1.Some?
    decreases e - i
  {
    if i < e {
      match HitBelow(hit, items[i].surf, r)
      case Some(t) => ScanSomeStays(items, i + 1, e, hit, WithEnd(r, t), Hit(items[i].surf, t));
      case None => ScanSomeStays(items, i + 1, e, hit, r, h);
    }
  }

  // ---------------------------------------------------------------- nearest hit is the minimum

  /** The hit of item j against the full ray. */
  function T<S>(items: seq<Item<S>>, j: int, hit: (S, Ray) -> Option<real>, r: Ray): Option<real>
    requires 0 <= j < |items|
  {
    HitBelow(hit, items[j].surf, r)
  }

  /** The index in [i, e) of the nearest hit, the earliest one among equals. */
  function FirstMin<S>(items: seq<Item<S>>, i: int, e: int, hit: (S, Ray) -> Option<real>, r: Ray): (m: Option<int>)
    requires 0 <= i <= e <= |items|
    ensures m.Some? ==> i <= m.value < e && T(items, m.value, hit, r).Some?
    decreases e - i
  {
    if i == e then None
    else
      var rest := FirstMin(items, i + 1, e, hit, r);
      if T(items, i, hit, r).None? then rest
      else if rest.None? || T(items, i, hit, r).value <= T(items, rest.value, hit, r).value then Some(i)
      else rest
  }

  /** FirstMin finds a least hit, strictly below every earlier hit, and finds one whenever any exists. */
  lemma {:induction false} FirstMinSpec<S>(items: seq<Item<S>>, i: int, e: int, hit: (S, Ray) -> Option<real>, r: Ray)
    requires 0 <= i <= e <= |items|
    ensures FirstMin(items, i, e, hit, r).None? <==> forall j :: i <= j < e ==> T(items, j, hit, r).None?
    ensures FirstMin(items, i, e, hit, r).Some? ==>
      var m := FirstMin(items, i, e, hit, r).value;
      (forall j :: i <= j < e && T(items, j, hit, r).Some? ==> T(items, m, hit, r).value <= T(items, j, hit, r).value)
      && (forall j :: i <= j < m && T(items, j, hit, r).Some? ==> T(items, m, hit, r).value < T(items, j, hit, r).value)
    decreases e - i
  {
    if i < e {
      FirstMinSpec(items, i + 1, e, hit, r);
    }
  }

  /**
   * Under Consistent, the leaf loop's record is the nearest hit of the range (earliest on
   * ties) when it lies before the current end, and the incoming state otherwise.
   */
  lemma {:induction false} LeafScanIsFirstMin<S(!new)>(items: seq<Item<S>>, i: int, e: int, hit: (S, Ray) -> Option<real>,
                                                 r0: Ray, cur: Ext, found: bool, out: Option<Hit<S>>)
    requires 0 <= i <= e <= |items|
    requires Consistent(hit) && ExtLe(cur, r0.end)
    ensures LeafScan(items, i, e, hit, r0.(end := cur), found, out) ==
      match FirstMin(items, i, e, hit, r0)
      case Some(m) =>
        if Below(T(items, m, hit, r0).value, cur) then (true, Some(Hit(items[m].surf, T(items, m, hit, r0).value)))
        else (found, out)
      case None => (found, out)
    decreases e - i
  {
    if i < e {
      var r := r0.(end := cur);
      assert HitBelow(hit, items[i].surf, r) == Filter(T(items, i, hit, r0), cur);
      match HitBelow(hit, items[i].surf, r)
      case Some(t) =>
        assert WithEnd(r, t) == r0.(end := Fin(t));
        LeafScanIsFirstMin(items, i + 1, e, hit, r0, Fin(t), true, Some(Hit(items[i].surf, t)));
      case None =>
        LeafScanIsFirstMin(items, i + 1, e, hit, r0, cur, found, out);
    }
  }

  /** h is a nearest hit among the items of [s, e). */
  ghost predicate IsNearest<S>(items: seq<Item<S>>, s: int, e: int, hit: (S, Ray) -> Option<real>, r: Ray, h: Hit<S>)
    requires 0 <= s <= e <= |items|
  {
    (exists m :: s <= m < e && items[m].surf == h.surf && T(items, m, hit, r) == Some(h.t))
    && forall j :: s <= j < e && T(items, j, hit, r).Some? ==> h.t <= T(items, j, hit, r).value
  }

  ghost predicate AnyIn<S>(items: seq<Item<S>>, s: int, e: int, hit: (S, Ray) -> Option<real>, r: Ray)
    requires 0 <= s <= e <= |items|
  {
    exists j :: s <= j < e && T(items, j, hit, r).Some?
  }

  lemma ValidInBounds<S>(n: Node, items: seq<Item<S>>, s: int, e: int)
    requires Valid(n, items, s, e)
    ensures InBounds(n, |items|)
    decreases n
  {
    match n
    case Leaf(_, _, _) =>
    case Inner(_, _, _, l, rt) =>
      ValidInBounds(l, items, s, (s + e) / 2);
      ValidInBounds(rt, items, (s + e) / 2, e);
  }

  /** A hit below the ray's end of a sound item lies in every box containing the item's box, so the box test passes. */
  lemma HitEntersBox<S>(items: seq<Item<S>>, j: int, hit: (S, Ray) -> Option<real>, r: Ray, b: Box)
    requires 0 <= j < |items| && SoundItem(hit, items[j])
    requires AtMost(r.start, r.end)
    requires Contains(b, items[j].box) && T(items, j, hit, r).Some?
    ensures Intersects(b, r)
  {
    var t := T(items, j, hit, r).value;
    InsideContains(b, items[j].box, PointAt(r, t));
    assert WellFormed(b);
    IntersectsIff(b, r);
  }

  /**
   * Nearest-hit traversal of a valid tree finds a hit exactly when some surface of the
   * range has one, and then returns a nearest hit of the range, started from an empty
   * record.
   */
  lemma {:induction false} NearestIsMin<S(!new)>(n: Node, items: seq<Item<S>>, s: int, e: int,
                                           hit: (S, Ray) -> Option<real>, r: Ray, out: Option<Hit<S>>)
    requires Valid(n, items, s, e) && Consistent(hit) && Sound(hit, items) && AtMost(r.start, r.end)
    ensures InBounds(n, |items|)
    ensures Nearest(n, items, hit, r, out).0 <==> AnyIn(items, s, e, hit, r)
    ensures Nearest(n, items, hit, r, out).0 ==>
      Nearest(n, items, hit, r, out).1.Some? && IsNearest(items, s, e, hit, r, Nearest(n, items, hit, r, out).1.value)
    decreases n
  {
    ValidInBounds(n, items, s, e);
    if !Intersects(n.box, r) {
      forall j | s <= j < e ensures T(items, j, hit, r).None? {
        if T(items, j, hit, r).Some? {
          HitEntersBox(items, j, hit, r, n.box);
        }
      }
    } else {
      match n
      case Leaf(_, _, _) =>
        assert r.(end := r.end) == r;
        LeafScanIsFirstMin(items, s, e, hit, r, r.end, false, out);
        FirstMinSpec(items, s, e, hit, r);
      case Inner(_, _, _, l, rt) =>
        var mid := (s + e) / 2;
        NearestIsMin(l, items, s, mid, hit, r, None);
        NearestIsMin(rt, items, mid, e, hit, r, None);
        NoHitNoRecord(l, items, hit, r);
        NoHitNoRecord(rt, items, hit, r);
        InnerCombine(items, s, mid, e, hit, r, Nearest(l, items, hit, r, None), Nearest(rt, items, hit, r, None));
    }
  }

  /** The choice an inner node makes between its children's results keeps a nearest hit. */
  lemma InnerCombine<S>(items: seq<Item<S>>, s: int, mid: int, e: int, hit: (S, Ray) -> Option<real>, r: Ray,
                        left: (bool, Option<Hit<S>>), right: (bool, Option<Hit<S>>))
    requires 0 <= s <= mid <= e <= |items|
    requires left.0 <==> AnyIn(items, s, mid, hit, r)
    requires left.1.Some? == left.0 && (left.0 ==> IsNearest(items, s, mid, hit, r, left.1.value))
    requires right.0 <==> AnyIn(items, mid, e, hit, r)
    requires right.1.Some? == right.0 && (right.0 ==> IsNearest(items, mid, e, hit, r, right.1.value))
    ensures (left.0 || right.0) <==> AnyIn(items, s, e, hit, r)
    ensures var rec := if left.1.Some? && (right.1.None? || left.1.value.t < right.1.value.t) then left.1 else right.1;
      (left.0 || right.0) ==> rec.Some? && IsNearest(items, s, e, hit, r, rec.value)
  {
    if AnyIn(items, s, e, hit, r) {
      var j :| s <= j < e && T(items, j, hit, r).Some?;
      if j < mid { assert AnyIn(items, s, mid, hit, r); } else { assert AnyIn(items, mid, e, hit, r); }
    }
    if left.0 {
      var m :| s <= m < mid && items[m].surf == left.1.value.surf && T(items, m, hit, r) == Some(left.1.value.t);
      assert s <= m < e;
    }
    if right.0 {
      var m :| mid <= m < e && items[m].surf == right.1.value.surf && T(items, m, hit, r) == Some(right.1.value.t);
      assert s <= m < e;
    }
  }

  /**
   * The BVH returns what a linear scan over all surfaces returns: given surfaces that
   * report their nearest hit in the window and lie in their boxes, `build` followed by a
   * nearest-hit `intersect` finds a hit exactly when some surface is hit before the ray's
   * end, and then reports one with the least t; any-hit mode answers the same question.
   */
  lemma BvhFindsNearest<S(!new)>(items: seq<Item<S>>, hit: (S, Ray) -> Option<real>, r: Ray, out: Option<Hit<S>>)
    requires |items| > 0 && Consistent(hit) && AtMost(r.start, r.end)
    requires forall it :: it in items ==> SoundItem(hit, it)
    ensures var (arr, tree) := Build(items);
      tree.Some? && InBounds(tree.value, |arr|) && multiset(arr) == multiset(items)
      && (Intersect(tree, arr, hit, r, out, false).0 <==> AnyIn(arr, 0, |arr|, hit, r))
      && (Intersect(tree, arr, hit, r, out, true).0 <==> AnyIn(arr, 0, |arr|, hit, r))
      && (Intersect(tree, arr, hit, r, out, false).0 ==>
            Intersect(tree, arr, hit, r, out, false).1.Some?
            && IsNearest(arr, 0, |arr|, hit, r, Intersect(tree, arr, hit, r, out, false).1.value))
  {
    var (arr, tree) := Build(items);
    BuildValid(items);
    forall i | 0 <= i < |arr| ensures SoundItem(hit, arr[i]) {
      assert arr[i] in multiset(arr);
    }
    NearestIsMin(tree.value, arr, 0, |arr|, hit, r, out);
    AnyHitAgreesWithNearest(tree.value, arr, hit, r, out);
  }
}
