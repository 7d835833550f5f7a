/**
 * `ray2.BlockSpiral`: the order in which the renderer visits the 32 x 32 blocks of the
 * image, a square spiral that starts near the centre of the block grid and skips the
 * cells that fall outside it.
 *
 * The do-while loop of `incrementSublockSpiral` has no bound in the source; here it runs
 * on a step budget `fuel` and reports None when the budget runs out.
 */
module BlockSpirals {
  import opened Wrappers
  import opened JavaInt

  /** `RayTracer.SUB_WIDTH` and `RayTracer.SUB_HEIGHT`: the block edge in pixels. */
  const SubSize: int := 32

  /** `PLUSY`, `PLUSX`, `MINUSY`, `MINUSX`, the values 0 to 3 of `curDir`. */
  datatype Dir = PlusY | PlusX | MinusY | MinusX

  /** `curDir++`, wrapping past `MINUSX` back to `PLUSY`. */
  function Turn(d: Dir): Dir {
    match d
    case PlusY => PlusX
    case PlusX => MinusY
    case MinusY => MinusX
    case MinusX => PlusY
  }

  /** The cell offset of one move along d. */
  function DeltaX(d: Dir): int {
    match d
    case PlusX => 1
    case MinusX => -1
    case _ => 0
  }

  function DeltaY(d: Dir): int {
    match d
    case PlusY => 1
    case MinusY => -1
    case _ => 0
  }

  datatype Spiral = Spiral(numSubX: int, numSubY: int, total: int, curX: int, curY: int,
                           dir: Dir, movesLeft: int, moveLength: int)

  /** `((extent - 1) / 32) + 1` with Java's truncating division. */
  function GridSize(extent: int): (n: int)
    ensures extent >= 1 ==> n >= 1
  {
    Quot(extent - 1, SubSize) + 1
  }

  /** For a positive extent the grid has the fewest 32-pixel blocks that cover it. */
  lemma GridSizeCovers(extent: int)
    requires extent >= 1
    ensures (GridSize(extent) - 1) * SubSize < extent <= GridSize(extent) * SubSize
  {
  }

  /** `initSubblockSpiral(width, height)`. */
  function InitSpiral(width: int, height: int): (s: Spiral)
    ensures s.numSubX == GridSize(width) && s.numSubY == GridSize(height)
    ensures s.total == s.numSubX * s.numSubY
    ensures s.dir == PlusY && s.movesLeft == 2 && s.moveLength == 1
  {
    var nx := GridSize(width);
    var ny := GridSize(height);
    Spiral(nx, ny, nx * ny, Quot(nx, 2) - 1, Quot(ny, 2) - 2, PlusY, 2, 1)
  }

  /** The current cell lies in the block grid. */
  predicate InGrid(s: Spiral) {
    0 <= s.curX < s.numSubX && 0 <= s.curY < s.numSubY
  }

  /**
   * One pass of the loop body: when no moves are left, turn, lengthen the run when the
   * new direction is +Y or -Y, and start a new run; then move one cell.
   */
  function Step(s: Spiral): (t: Spiral)
    ensures t.numSubX == s.numSubX && t.numSubY == s.numSubY && t.total == s.total
    ensures t.curX == s.curX + DeltaX(t.dir) && t.curY == s.curY + DeltaY(t.dir)
  {
    var s1 :=
      if s.movesLeft == 0 then
        var d := Turn(s.dir);
        var len := if d == PlusY || d == MinusY then s.moveLength + 1 else s.moveLength;
        s.(dir := d, moveLength := len, movesLeft := len)
      else s;
    s1.(curX := s1.curX + DeltaX(s1.dir), curY := s1.curY + DeltaY(s1.dir), movesLeft := s1.movesLeft - 1)
  }

  /** `incrementSublockSpiral`: step at least once, until the cell is inside the grid. */
  function Increment(s: Spiral, fuel: nat): (r: Option<Spiral>)
    ensures r.Some? ==> InGrid(r.value)
    ensures r.Some? ==> r.value.numSubX == s.numSubX && r.value.numSubY == s.numSubY && r.value.total == s.total
    decreases fuel
  {
    if fuel == 0 then None
    else
      var t := Step(s);
      if InGrid(t) then Some(t) else Increment(t, fuel - 1)
  }

  // ---------------------------------------------------------------- properties

  /** Four turns bring the direction back, visiting all four directions on the way. */
  lemma TurnCycles(d: Dir)
    ensures Turn(Turn(Turn(Turn(d)))) == d
    ensures Turn(d) != d && Turn(Turn(d)) != d && Turn(Turn(Turn(d))) != d
  {
  }

  /** Every step moves exactly one cell along a grid axis. */
  lemma StepMovesOneCell(s: Spiral)
    ensures var t := Step(s);
      (t.curX - s.curX) * (t.curX - s.curX) + (t.curY - s.curY) * (t.curY - s.curY) == 1
  {
  }

  /**
   * A step with moves left keeps the direction and run length and uses up one move; a step
   * with none left turns, lengthens the run exactly when turning onto +Y or -Y, and starts
   * the new run with one move used.
   */
  lemma StepTurnsWhenRunEnds(s: Spiral)
    ensures var t := Step(s);
      (s.movesLeft != 0 ==> t.dir == s.dir && t.moveLength == s.moveLength && t.movesLeft == s.movesLeft - 1)
      && (s.movesLeft == 0 ==>
            t.dir == Turn(s.dir)
            && (t.moveLength == s.moveLength + 1 <==> t.dir == PlusY || t.dir == MinusY)
            && (t.moveLength == s.moveLength || t.moveLength == s.moveLength + 1)
            && t.movesLeft == t.moveLength - 1)
  {
  }

  /** The counters stay sane: moves left never negative and runs at least one cell long. */
  ghost predicate Counters(s: Spiral) {
    s.movesLeft >= 0 && s.moveLength >= 1
  }

  /** The spiral after k increments, or None if one of them runs out of budget. */
  function Increments(s: Spiral, k: nat, fuel: nat): (r: Option<Spiral>)
    decreases k
  {
    if k == 0 then Some(s)
    else match Increment(s, fuel)
      case None => None
      case Some(t) => Increments(t, k - 1, fuel)
  }

  /** Any number of increments from the initial spiral keeps the counters sane. */
  lemma {:induction false} IncrementsKeepCounters(s: Spiral, k: nat, fuel: nat)
    requires Counters(s)
    ensures Increments(s, k, fuel).Some? ==> Counters(Increments(s, k, fuel).value)
    decreases k
  {
    if k > 0 {
      IncrementKeepsCounters(s, fuel);
      if Increment(s, fuel).Some? {
        IncrementsKeepCounters(Increment(s, fuel).value, k - 1, fuel);
      }
    }
  }

  lemma {:induction false} IncrementKeepsCounters(s: Spiral, fuel: nat)
    requires Counters(s)
    ensures Increment(s, fuel).Some? ==> Counters(Increment(s, fuel).value)
    decreases fuel
  {
    if fuel > 0 {
      var t := Step(s);
      assert Counters(t);
      if !InGrid(t) {
        IncrementKeepsCounters(t, fuel - 1);
      }
    }
  }

  /** The initial spiral has sane counters, and every cell the renderer is given lies in the grid. */
  lemma RenderedCellsInGrid(width: int, height: int, k: nat, fuel: nat)
    requires k >= 1
    ensures Counters(InitSpiral(width, height))
    ensures var r := Increments(InitSpiral(width, height), k, fuel);
      r.Some? ==> InGrid(r.value) && Counters(r.value)
  {
    IncrementsKeepCounters(InitSpiral(width, height), k, fuel);
    LastIncrementInGrid(InitSpiral(width, height), k, fuel);
  }

  lemma {:induction false} LastIncrementInGrid(s: Spiral, k: nat, fuel: nat)
    requires k >= 1
    ensures Increments(s, k, fuel).Some? ==> InGrid(Increments(s, k, fuel).value)
    decreases k
  {
    if Increment(s, fuel).Some? && k > 1 {
      LastIncrementInGrid(Increment(s, fuel).value, k - 1, fuel);
    }
  }
}
