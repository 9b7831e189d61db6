/**
 * The animation that makes the entry and exit cells blink: each tick moves
 * on to the next palette of a list, round-robin, and paints both cells with it.
 */
module EntryExitAnimation {
  import opened Cells
  import opened Arith

  /** The palette index after `k` ticks from `start` over `count` palettes. */
  function IndexAfter(start: nat, count: nat, k: nat): nat
    requires count > 0
  {
    if k == 0 then start else (IndexAfter(start, count, k - 1) + 1) % count
  }

  /**
   * After at least one tick the index is `start + k` wrapped round the
   * palette count: the palettes are visited round-robin from `start + 1`.
   */
  lemma {:induction false} IndexAfterRoundRobin(start: nat, count: nat, k: nat)
    requires count > 0 && k > 0
    ensures IndexAfter(start, count, k) == (start + k) % count
    ensures IndexAfter(start, count, k) < count
  {
    if k > 1 {
      IndexAfterRoundRobin(start, count, k - 1);
      ModSucc(start + k - 1, count);
    }
  }

  class EntryExitAnimator {
    var colorIndex: nat
    /** Whether an interval is scheduled. */
    var running: bool
    var entryCell: MazeCell?
    var exitCell: MazeCell?
    var shadesList: seq<seq<int>>

    /** The index starts at 0 and no interval is scheduled. */
    constructor ()
      ensures colorIndex == 0 && !running && entryCell == null && exitCell == null
    {
      colorIndex := 0;
      running := false;
      entryCell := null;
      exitCell := null;
      shadesList := [];
    }

    /**
     * `start`: clears any previous interval and schedules a new one over the
     * two cells and the palette list. The index carries over from earlier runs.
     */
    method Start(entryCell: MazeCell, exitCell: MazeCell, shadesList: seq<seq<int>>)
      modifies this
      ensures running && this.entryCell == entryCell && this.exitCell == exitCell
      ensures this.shadesList == shadesList && colorIndex == old(colorIndex)
    {
      Stop();
      this.entryCell := entryCell;
      this.exitCell := exitCell;
      this.shadesList := shadesList;
      running := true;
    }

    /** `stop`: clears the interval if there is one; calling it again changes nothing. */
    method Stop()
      modifies this
      ensures !running && colorIndex == old(colorIndex)
      ensures entryCell == old(entryCell) && exitCell == old(exitCell) && shadesList == old(shadesList)
    {
      if running {
        running := false;
      }
    }

    /** One tick: the next palette of the list, given to both the entry and the exit cell. */
    method Tick()
      requires entryCell != null && exitCell != null && |shadesList| > 0
      modifies this, entryCell, exitCell
      ensures entryCell == old(entryCell) && exitCell == old(exitCell) && shadesList == old(shadesList)
      ensures colorIndex == IndexAfter(old(colorIndex), |shadesList|, 1) && colorIndex < |shadesList|
      ensures entryCell.shades == shadesList[colorIndex] && exitCell.shades == shadesList[colorIndex]
      ensures entryCell.shadeIndex == old(entryCell.shadeIndex) && entryCell.size == old(entryCell.size)
      ensures entryCell.groupId == old(entryCell.groupId)
      ensures exitCell.shadeIndex == old(exitCell.shadeIndex) && exitCell.size == old(exitCell.size)
      ensures exitCell.groupId == old(exitCell.groupId)
      ensures running == old(running)
    {
      colorIndex := (colorIndex + 1) % |shadesList|;
      entryCell.SetColorKey(shadesList[colorIndex]);
      exitCell.SetColorKey(shadesList[colorIndex]);
    }
  }
}
