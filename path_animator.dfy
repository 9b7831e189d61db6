/**
 * The animation that runs along a found path: one cell is painted per
 * tick, the painter bounces between the two ends of the path, and every
 * bounce moves on to the next shade, and after the last shade of a palette
 * to the next palette.
 */
module PathAnimation {
  import opened Cells

  /** Every palette has at least one shade. */
  predicate PalettesUsable(palettes: seq<seq<int>>)
  {
    |palettes| > 0 && forall i | 0 <= i < |palettes| :: |palettes[i]| > 0
  }

  /** The counters one tick of the animation reads and writes. */
  datatype Counters = Counters(index: int, direction: int, palette: int, shade: int)

  /** Whether a tick at `c` turns round: at the last cell going forward, or at the first going back. */
  predicate TurnsAt(c: Counters, len: int)
  {
    (c.direction == 1 && c.index == len - 1) || (c.direction == -1 && c.index == 0)
  }

  /**
   * The counters after the bounce check of a tick: on a bounce the direction
   * flips and the shade moves on, and when the shade wraps round to 0 the
   * palette moves on too.
   */
  function Bounce(c: Counters, len: int, palettes: seq<seq<int>>): Counters
    requires PalettesUsable(palettes) && 0 <= c.palette < |palettes|
  {
    if TurnsAt(c, len) then
      var shade := (c.shade + 1) % |palettes[c.palette]|;
      var palette := if shade == 0 then (c.palette + 1) % |palettes| else c.palette;
      Counters(c.index, -c.direction, palette, shade)
    else c
  }

  /** The counters always name a shade of one of the palettes, and the painter moves one cell at a time. */
  predicate ShadeInRange(c: Counters, palettes: seq<seq<int>>)
  {
    0 <= c.palette < |palettes| && 0 <= c.shade < |palettes[c.palette]| && (c.direction == 1 || c.direction == -1)
  }

  /** The position the painter is at lies on the path. */
  predicate OnPath(c: Counters, len: int)
  {
    0 <= c.index < len
  }

  /**
   * A bounce keeps the shade and palette in range, and on a path of at least
   * one cell the painter, once turned, points back into the path.
   */
  lemma BounceKeepsRange(c: Counters, len: int, palettes: seq<seq<int>>)
    requires PalettesUsable(palettes) && ShadeInRange(c, palettes)
    ensures ShadeInRange(Bounce(c, len, palettes), palettes)
    ensures Bounce(c, len, palettes).index == c.index
    ensures len >= 2 && OnPath(c, len) ==> 0 <= c.index + Bounce(c, len, palettes).direction < len
  {
    var b := Bounce(c, len, palettes);
    if TurnsAt(c, len) {
      assert 0 <= b.shade < |palettes[c.palette]|;
      if b.shade == 0 {
        assert 0 <= b.palette < |palettes|;
        assert |palettes[b.palette]| > 0;
      }
    }
  }

  /** The counters after one whole tick that paints: the bounce check, then one step. */
  function Advance(c: Counters, len: int, palettes: seq<seq<int>>): Counters
    requires PalettesUsable(palettes) && 0 <= c.palette < |palettes|
  {
    var b := Bounce(c, len, palettes);
    b.(index := b.index + b.direction)
  }

  /** The counters after `k` painting ticks. */
  function AdvanceBy(c: Counters, len: int, palettes: seq<seq<int>>, k: nat): Counters
    requires PalettesUsable(palettes) && ShadeInRange(c, palettes)
    ensures ShadeInRange(AdvanceBy(c, len, palettes, k), palettes)
    decreases k
  {
    BounceKeepsRange(c, len, palettes);
    if k == 0 then c else AdvanceBy(Advance(c, len, palettes), len, palettes, k - 1)
  }

  /**
   * On a path of two cells or more, a painter that starts on the path is on
   * the path after any number of ticks, so every tick finds a cell to paint.
   */
  lemma {:induction false} StaysOnPath(c: Counters, len: int, palettes: seq<seq<int>>, k: nat)
    requires PalettesUsable(palettes) && ShadeInRange(c, palettes)
    requires len >= 2 && OnPath(c, len)
    ensures OnPath(AdvanceBy(c, len, palettes, k), len)
    decreases k
  {
    if k > 0 {
      BounceKeepsRange(c, len, palettes);
      StaysOnPath(Advance(c, len, palettes), len, palettes, k - 1);
    }
  }

  class PathAnimator {
    const palettes: seq<seq<int>>
    var path: seq<MazeCell>
    var currentIndex: int
    var direction: int
    var currentPalette: int
    var currentShade: int
    /** Whether an interval is scheduled. */
    var running: bool

    function Current(): Counters
      reads this
    {
      Counters(currentIndex, direction, currentPalette, currentShade)
    }

    ghost predicate Valid()
      reads this
    {
      PalettesUsable(palettes) && ShadeInRange(Current(), palettes)
    }

    /** The palettes are the colour table's values; the counters start at 0, going forward. */
    constructor (palettes: seq<seq<int>>)
      requires PalettesUsable(palettes)
      ensures Valid() && this.palettes == palettes && path == []
      ensures Current() == Counters(0, 1, 0, 0) && !running
    {
      this.palettes := palettes;
      path := [];
      currentIndex := 0;
      direction := 1;
      currentPalette := 0;
      currentShade := 0;
      running := false;
    }

    /** `start`: stops any running animation, resets the counters and starts ticking along `path`. */
    method Start(path: seq<MazeCell>)
      requires Valid()
      modifies this
      ensures Valid() && running && this.path == path
      ensures Current() == Counters(0, 1, 0, 0)
    {
      Stop();
      currentIndex := 0;
      currentPalette := 0;
      currentShade := 0;
      direction := 1;
      this.path := path;
      running := true;
    }

    /** `stop`: clears the interval if there is one; calling it again changes nothing. */
    method Stop()
      modifies this
      ensures !running
      ensures path == old(path) && Current() == old(Current())
    {
      if running {
        running := false;
      }
    }

    /**
     * One tick of the interval. After the bounce check it paints the cell at
     * the current index with the current palette and shade and steps the
     * index. When the index is off the path the source fails on the missing
     * cell after the bounce check; the model then reports `painted == false`
     * and changes nothing else.
     */
    method Tick() returns (painted: bool)
      requires Valid()
      modifies this, path
      ensures Valid() && path == old(path) && running == old(running)
      ensures var b := Bounce(old(Current()), |path|, palettes);
        painted == OnPath(b, |path|) &&
        (painted ==> Current() == Advance(old(Current()), |path|, palettes)) &&
        (!painted ==> Current() == b)
      ensures painted ==> var c := path[old(currentIndex)];
        c.shades == palettes[currentPalette] && c.shadeIndex == currentShade &&
        c.size == old(c.size) && c.groupId == old(c.groupId)
      ensures forall c | c in path && (!painted || c != path[old(currentIndex)]) ::
        c.shades == old(c.shades) && c.shadeIndex == old(c.shadeIndex) &&
        c.size == old(c.size) && c.groupId == old(c.groupId)
      ensures |path| >= 2 && OnPath(old(Current()), |path|) ==> painted && OnPath(Current(), |path|)
    {
      BounceKeepsRange(Current(), |path|, palettes);
      if (direction == 1 && currentIndex == |path| - 1) || (direction == -1 && currentIndex == 0) {
        direction := -direction;
        currentShade := (currentShade + 1) % |palettes[currentPalette]|;
        if currentShade == 0 {
          currentPalette := (currentPalette + 1) % |palettes|;
        }
      }
      if 0 <= currentIndex < |path| {
        var shades := palettes[currentPalette];
        var cell := path[currentIndex];
        cell.SetColorKey(shades);
        cell.SetShadeIndex(currentShade);
        currentIndex := currentIndex + direction;
        painted := true;
      } else {
        painted := false;
      }
    }
  }
}
