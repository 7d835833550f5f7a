/**
 * `anim.AnimationEngine`: the global timeline's frame pointer (first frame, last frame,
 * current frame), its clamping and looping moves, the interpolation ratio between two
 * keyframes, and the rotation-interpolation mode switch.
 *
 * Frames are unbounded integers; the ratio is a real number standing for the source's float.
 */
module Animation {

  /** `RotationMode`: how rotations are interpolated between keyframes. */
  datatype RotationMode = Euler | QuatLerp | QuatSlerp

  datatype Engine = Engine(frameStart: int, frameEnd: int, curFrame: int, mode: RotationMode)

  /** The timeline is ordered and the frame pointer lies on it. */
  predicate Valid(e: Engine) {
    e.frameStart <= e.curFrame <= e.frameEnd
  }

  /** A freshly constructed engine: frames 0 to 100, pointer at 0, Euler rotations. */
  function Initial(): (e: Engine)
    ensures Valid(e) && NumFrames(e) == 101
    ensures e.curFrame == e.frameStart && e.mode == Euler
  {
    Engine(0, 100, 0, Euler)
  }

  /** `getNumFrames`: both ends of the timeline count. */
  function NumFrames(e: Engine): int {
    e.frameEnd - e.frameStart + 1
  }

  /** `moveToFrame`: clamp the desired frame onto the timeline. */
  function MoveToFrame(e: Engine, f: int): (r: Engine)
    ensures r.frameStart == e.frameStart && r.frameEnd == e.frameEnd && r.mode == e.mode
    ensures e.frameStart <= e.frameEnd ==> Valid(r)
    ensures e.frameStart <= f <= e.frameEnd ==> r.curFrame == f
    ensures f < e.frameStart ==> r.curFrame == e.frameStart
    ensures e.frameStart <= e.frameEnd < f ==> r.curFrame == e.frameEnd
  {
    var g := if f < e.frameStart then e.frameStart else if f > e.frameEnd then e.frameEnd else f;
    e.(curFrame := g)
  }

  /** `setTimelineBounds`: swap reversed bounds, install them, then re-clamp the pointer. */
  function SetTimelineBounds(e: Engine, start: int, end: int): (r: Engine)
    ensures Valid(r) && r.mode == e.mode
    ensures r.frameStart <= r.frameEnd
    ensures {r.frameStart, r.frameEnd} == {start, end}
    ensures r.frameStart <= e.curFrame <= r.frameEnd ==> r.curFrame == e.curFrame
  {
    var (s, t) := if end < start then (end, start) else (start, end);
    MoveToFrame(e.(frameStart := s, frameEnd := t), e.curFrame)
  }

  /** `advance(n)`: move forwards, and past the last frame continue from the first. */
  function Advance(e: Engine, n: int): (r: Engine)
    ensures r.frameStart == e.frameStart && r.frameEnd == e.frameEnd && r.mode == e.mode
  {
    var c := e.curFrame + n;
    e.(curFrame := if c > e.frameEnd then e.frameStart + (c - e.frameEnd - 1) else c)
  }

  /** `rewind(n)`: move backwards, and before the first frame continue from the last. */
  function Rewind(e: Engine, n: int): (r: Engine)
    ensures r.frameStart == e.frameStart && r.frameEnd == e.frameEnd && r.mode == e.mode
  {
    var c := e.curFrame - n;
    e.(curFrame := if c < e.frameStart then e.frameEnd - (e.frameStart - c - 1) else c)
  }

  /** `getRatio(min, max, cur)`: how far cur lies from min towards max. */
  function Ratio(min: int, max: int, cur: int): (r: real)
    ensures min == max ==> r == 0.0
    ensures min != max ==> r * (max - min) as real == (cur - min) as real
    ensures min < max && min <= cur <= max ==> 0.0 <= r <= 1.0
  {
    if min == max then 0.0
    else
      var total := (max - min) as real;
      var diff := (cur - min) as real;
      RatioBounds(diff, total);
      diff / total
  }

  /** `toggleRotationMode`: Euler, then linear quaternion, then spherical quaternion. */
  function Toggle(m: RotationMode): (r: RotationMode)
    ensures r != m
  {
    match m
    case Euler => QuatLerp
    case QuatLerp => QuatSlerp
    case QuatSlerp => Euler
  }

  function ToggleRotationMode(e: Engine): (r: Engine)
    ensures r.mode == Toggle(e.mode)
    ensures r.(mode := e.mode) == e
  {
    e.(mode := Toggle(e.mode))
  }

  // ---------------------------------------------------------------- properties

  /** A quotient of a non-negative by a larger positive number lies in [0, 1]. */
  lemma RatioBounds(diff: real, total: real)
    requires total != 0.0
    ensures (diff / total) * total == diff
    ensures 0.0 <= diff <= total ==> 0.0 <= diff / total <= 1.0
  {
    if 0.0 <= diff <= total {
      FractionWithin(diff, total);
    }
  }

  lemma FractionWithin(diff: real, total: real)
    requires 0.0 <= diff <= total && total != 0.0
    ensures 0.0 <= diff / total <= 1.0
  {
  }

  /** A pointer already on the timeline stays where it is, so clamping twice is clamping once. */
  lemma MoveToFrameIdempotent(e: Engine, f: int)
    requires e.frameStart <= e.frameEnd
    ensures MoveToFrame(MoveToFrame(e, f), f) == MoveToFrame(e, f)
    ensures Valid(e) ==> MoveToFrame(e, e.curFrame) == e
  {
  }

  /** The clamped frame is the frame of the timeline closest to the one asked for. */
  lemma MoveToFrameNearest(e: Engine, f: int, g: int)
    requires e.frameStart <= g <= e.frameEnd
    ensures var c := MoveToFrame(e, f).curFrame;
      (c - f) * (c - f) <= (g - f) * (g - f)
  {
    var c := MoveToFrame(e, f).curFrame;
    if f < e.frameStart {
      MulMonoNat(c - f, g - f);
    } else if f > e.frameEnd {
      MulMonoNat(f - c, f - g);
    }
  }

  lemma MulMonoNat(a: int, b: int)
    requires 0 <= a <= b
    ensures a * a <= b * b
  {
    assert b * b - a * a == (b - a) * (b + a);
  }

  /** The order of the two bounds does not matter. */
  lemma SetTimelineBoundsSymmetric(e: Engine, a: int, b: int)
    ensures SetTimelineBounds(e, a, b) == SetTimelineBounds(e, b, a)
  {
  }

  /** A valid timeline has at least one frame. */
  lemma ValidHasFrames(e: Engine)
    requires Valid(e)
    ensures NumFrames(e) >= 1
  {
  }

  /**
   * Within one lap, advancing is addition modulo the number of frames, counted from the
   * first frame; the pointer stays on the timeline.
   */
  lemma AdvanceWraps(e: Engine, n: int)
    requires Valid(e) && 0 <= n <= NumFrames(e)
    ensures Advance(e, n).curFrame == e.frameStart + (e.curFrame - e.frameStart + n) % NumFrames(e)
    ensures Valid(Advance(e, n))
  {
    var k := e.curFrame - e.frameStart + n;
    var m := NumFrames(e);
    if k >= m {
      ModOneLap(k, m);
    }
  }

  /** Within one lap, rewinding is subtraction modulo the number of frames. */
  lemma RewindWraps(e: Engine, n: int)
    requires Valid(e) && 0 <= n <= NumFrames(e)
    ensures Rewind(e, n).curFrame == e.frameStart + (e.curFrame - e.frameStart - n) % NumFrames(e)
    ensures Valid(Rewind(e, n))
  {
    var k := e.curFrame - e.frameStart - n;
    var m := NumFrames(e);
    if k < 0 {
      ModOneLapBelow(k, m);
    }
  }

  lemma ModOneLap(k: int, m: int)
    requires 0 < m <= k < 2 * m
    ensures k % m == k - m
  {
    assert k == 1 * m + (k - m);
  }

  lemma ModOneLapBelow(k: int, m: int)
    requires 0 < m && -m <= k < 0
    ensures k % m == k + m
  {
    assert k == -1 * m + (k + m);
  }

  /** Rewinding by the frames just advanced returns to the starting frame. */
  lemma AdvanceThenRewind(e: Engine, n: int)
    requires Valid(e) && 0 <= n <= NumFrames(e)
    ensures Rewind(Advance(e, n), n) == e
  {
    AdvanceWraps(e, n);
  }

  /** Advancing by the frames just rewound returns to the starting frame. */
  lemma RewindThenAdvance(e: Engine, n: int)
    requires Valid(e) && 0 <= n <= NumFrames(e)
    ensures Advance(Rewind(e, n), n) == e
  {
    RewindWraps(e, n);
  }

  /** A whole lap forwards or backwards comes back to the same frame. */
  lemma FullLap(e: Engine)
    requires Valid(e)
    ensures Advance(e, NumFrames(e)) == e
    ensures Rewind(e, NumFrames(e)) == e
  {
    AdvanceWraps(e, NumFrames(e));
    RewindWraps(e, NumFrames(e));
  }

  /** Three toggles restore the rotation mode, and the three modes are all visited. */
  lemma ToggleCycles(m: RotationMode)
    ensures Toggle(Toggle(Toggle(m))) == m
    ensures Toggle(Toggle(m)) != m
  {
  }
}
