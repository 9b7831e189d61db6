/**
 * The effects a cell can be revealed with: `shade` counts the shade index
 * down from the darkest end of the palette to the cell's own shade, one step
 * per tick; `flyIn` moves the cell just outside the nearest border of the
 * maze before animating it back; `pickCellTransition` chooses one by name.
 */
module Transitions {
  import opened Wrappers
  import opened Cells

  // ---------------------------------------------------------------------------
  // shade
  // ---------------------------------------------------------------------------

  /**
   * The shade indices one tick sets, from the counter value `idx` before the
   * tick and the index `target` to come back to.
   */
  function TickShades(idx: int, target: int): seq<int>
  {
    (if idx - 1 >= target then [idx - 1] else []) + (if idx - 1 <= target then [target] else [])
  }

  /** The shade indices the ticks set from counter value `idx` until the transition ends. */
  function RemainingShades(idx: int, target: int): seq<int>
    decreases idx - target
  {
    if idx - 1 <= target then TickShades(idx, target)
    else TickShades(idx, target) + RemainingShades(idx - 1, target)
  }

  /** Every shade index the whole transition sets, in order, the first one set before any tick. */
  function ShadeSchedule(top: int, target: int): seq<int>
  {
    [top] + RemainingShades(top, target)
  }

  predicate NonIncreasing(s: seq<int>)
  {
    forall i, j | 0 <= i < j < |s| :: s[i] >= s[j]
  }

  /**
   * From counter value `idx` at or above `target`, the remaining indices count
   * down one by one from `idx - 1` to `target` and then set `target` once more.
   */
  lemma {:induction false} RemainingCountsDown(idx: int, target: int)
    requires idx >= target
    ensures |RemainingShades(idx, target)| == if idx == target then 1 else idx - target + 1
    ensures forall i | 0 <= i < idx - target :: RemainingShades(idx, target)[i] == idx - 1 - i
    ensures RemainingShades(idx, target)[|RemainingShades(idx, target)| - 1] == target
    decreases idx - target
  {
    if idx - 1 > target {
      RemainingCountsDown(idx - 1, target);
      var rest := RemainingShades(idx - 1, target);
      assert RemainingShades(idx, target) == [idx - 1] + rest;
    }
  }

  /**
   * The transition starts at the last shade, ends at the cell's own shade,
   * and when the cell's own shade is a shade of the palette it never
   * brightens on the way.
   */
  lemma ShadeScheduleDescends(top: int, target: int)
    ensures ShadeSchedule(top, target)[0] == top
    ensures var s := ShadeSchedule(top, target); s[|s| - 1] == target
    ensures target <= top ==> NonIncreasing(ShadeSchedule(top, target))
  {
    var s := ShadeSchedule(top, target);
    if target <= top {
      RemainingCountsDown(top, target);
      forall i, j | 0 <= i < j < |s|
        ensures s[i] >= s[j]
      {
        if i > 0 && j - 1 >= top - target {
          assert s[j] == target;
        }
      }
    } else {
      assert RemainingShades(top, target) == [target];
    }
  }

  /**
   * The `shade` transition in flight on one cell: `idx` is the counter,
   * `target` the index the cell showed when the transition began. The ghost
   * `shown` is every index set so far.
   */
  class ShadeTransition {
    const cell: MazeCell
    const top: int
    const target: int
    var idx: int
    /** Whether the interval is still scheduled. */
    var active: bool
    ghost var shown: seq<int>

    /** What has been set and what the remaining ticks will set make up the schedule. */
    ghost predicate Valid()
      reads this, cell
    {
      (active ==> cell.shadeIndex == idx && shown + RemainingShades(idx, target) == ShadeSchedule(top, target)) &&
      (!active ==> cell.shadeIndex == target && shown == ShadeSchedule(top, target))
    }

    /** Starting the transition: the counter and the cell's shade go to the last index of its palette. */
    constructor (cell: MazeCell)
      modifies cell
      ensures Valid() && active && this.cell == cell
      ensures top == |old(cell.shades)| - 1 && target == old(cell.shadeIndex) && idx == top
      ensures shown == [top]
      ensures cell.shadeIndex == top && cell.shades == old(cell.shades)
      ensures cell.size == old(cell.size) && cell.groupId == old(cell.groupId)
    {
      this.cell := cell;
      top := |cell.shades| - 1;
      target := cell.shadeIndex;
      idx := |cell.shades| - 1;
      active := true;
      shown := [|cell.shades| - 1];
      new;
      cell.SetShadeIndex(idx);
    }

    /** One tick of the interval: count down, show the count, and finish at the cell's own shade. */
    method Tick()
      requires Valid() && active
      modifies this, cell
      ensures Valid()
      ensures idx == old(idx) - 1 && active == (idx > target)
      ensures shown == old(shown) + TickShades(old(idx), target)
      ensures cell.shades == old(cell.shades) && cell.size == old(cell.size) && cell.groupId == old(cell.groupId)
    {
      idx := idx - 1;
      if idx >= target {
        cell.SetShadeIndex(idx);
        shown := shown + [idx];
      }
      if idx <= target {
        active := false;
        cell.SetShadeIndex(target);
        shown := shown + [target];
      }
    }
  }

  /**
   * The ticks always set at least one index. When the cell's own shade is in
   * the palette, the transition sets every index from the last down to it, and
   * the cell's own one a second time at the end.
   */
  lemma ShadeTicks(top: int, target: int)
    ensures |RemainingShades(top, target)| >= 1
    ensures target <= top ==> |ShadeSchedule(top, target)| == if top == target then 2 else top - target + 2
  {
    if target <= top {
      RemainingCountsDown(top, target);
    }
  }

  // ---------------------------------------------------------------------------
  // flyIn
  // ---------------------------------------------------------------------------

  datatype Side = Left | Right | Top | Bottom

  /**
   * The `reduce` over the distances: keeps the earlier entry only when it is
   * strictly smaller. The result is the LAST entry of least distance.
   */
  function Closest(ds: seq<real>): (k: nat)
    requires |ds| > 0
    ensures k < |ds|
    ensures forall j | 0 <= j < |ds| :: ds[k] <= ds[j]
    ensures forall j | k < j < |ds| :: ds[k] < ds[j]
  {
    if |ds| == 1 then 0
    else
      var a := Closest(ds[..|ds| - 1]);
      assert ds[..|ds| - 1][a] == ds[a];
      if ds[a] < ds[|ds| - 1] then a else |ds| - 1
  }

  /** The sides in the order the source lists their distances. */
  function Sides(): seq<Side> { [Left, Right, Top, Bottom] }

  /** The four distances, in the order left, right, top, bottom. */
  function Distances(x: real, y: real, mazeWidth: real, mazeHeight: real, cellSize: real): seq<real>
  {
    [x, mazeWidth - x - cellSize, y, mazeHeight - y - cellSize]
  }

  /**
   * The border the cell flies in from. A cell without a parent measures the
   * maze as 0 by 0.
   */
  function ClosestBorder(x: real, y: real, parent: Option<(real, real)>, cellSize: real): (s: Side)
  {
    var (w, h) := if parent.Some? then parent.value else (0.0, 0.0);
    Sides()[Closest(Distances(x, y, w, h, cellSize))]
  }

  /** The distance from the cell to one border of a maze `w` by `h`. */
  function DistanceTo(s: Side, x: real, y: real, w: real, h: real, cellSize: real): real
  {
    match s
    case Left => x
    case Right => w - x - cellSize
    case Top => y
    case Bottom => h - y - cellSize
  }

  /**
   * The chosen border is at least as near as every other, and strictly
   * nearer than every border after it in the order left, right, top, bottom.
   */
  lemma ClosestBorderIsNearest(x: real, y: real, w: real, h: real, cellSize: real)
    ensures var s := ClosestBorder(x, y, Some((w, h)), cellSize);
      forall t: Side :: DistanceTo(s, x, y, w, h, cellSize) <= DistanceTo(t, x, y, w, h, cellSize)
    ensures var s := ClosestBorder(x, y, Some((w, h)), cellSize);
      forall t: Side | Order(s) < Order(t) :: DistanceTo(s, x, y, w, h, cellSize) < DistanceTo(t, x, y, w, h, cellSize)
  {
    var ds := Distances(x, y, w, h, cellSize);
    var k := Closest(ds);
    forall t: Side
      ensures ds[Order(t)] == DistanceTo(t, x, y, w, h, cellSize)
    {
    }
    assert Order(Sides()[k]) == k;
  }

  /** The place of a side in the order left, right, top, bottom. */
  function Order(s: Side): nat
  {
    match s
    case Left => 0
    case Right => 1
    case Top => 2
    case Bottom => 3
  }

  /** Where the cell is put before it flies back: just outside the chosen border. */
  function FlyInStart(x: real, y: real, parent: Option<(real, real)>, cellSize: real): (real, real)
  {
    var (w, h) := if parent.Some? then parent.value else (0.0, 0.0);
    match ClosestBorder(x, y, parent, cellSize)
    case Left => (-cellSize, y)
    case Right => (w + cellSize, y)
    case Top => (x, -cellSize)
    case Bottom => (x, h + cellSize)
  }

  /**
   * Moving the cell out changes one coordinate only, and puts the cell
   * entirely outside the maze on that side when cells have a positive size.
   */
  lemma FlyInStartOutside(x: real, y: real, w: real, h: real, cellSize: real)
    requires cellSize > 0.0
    ensures var (x', y') := FlyInStart(x, y, Some((w, h)), cellSize);
      (y' == y && (x' + cellSize <= 0.0 || x' >= w)) || (x' == x && (y' + cellSize <= 0.0 || y' >= h))
  {
  }

  // ---------------------------------------------------------------------------
  // pickCellTransition
  // ---------------------------------------------------------------------------

  /** The names of the transitions, in declaration order. */
  function TransitionNames(): seq<string>
  {
    ["shade", "scale", "flyIn"]
  }

  /**
   * `pickCellTransition`, with `Math.random()` passed in as `draw` in [0, 1):
   * the name at index `floor(draw * 3)`.
   */
  function PickCellTransition(draw: real): (name: string)
    requires 0.0 <= draw < 1.0
    ensures name in TransitionNames()
  {
    var k := (draw * |TransitionNames()| as real).Floor;
    TransitionNames()[k]
  }

  /** Every transition can be picked: draw `k / 3` picks the k-th name. */
  lemma EveryTransitionPickable(k: nat)
    requires k < |TransitionNames()|
    ensures PickCellTransition(k as real / 3.0) == TransitionNames()[k]
  {
    assert (k as real / 3.0) * 3.0 == k as real;
  }
}
