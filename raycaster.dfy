/**
 * The first-person view's player: the position and heading moved by the
 * keys held down, a move accepted only into an open cell of the maze, and
 * the shade band a wall slice is drawn in when no cell colour applies.
 */
module Raycasting {
  import opened Generator

  /** How far one tick moves the player, in cells. */
  const MoveSpeed: real := 0.035
  /** How far one tick turns the player, in radians. */
  const RotSpeed: real := 0.015
  /** The furthest a ray travels, in cells. */
  const MaxDepth: real := 8.0

  // ---------------------------------------------------------------------------
  // Moving
  // ---------------------------------------------------------------------------

  /**
   * The cell under `(x, y)` is a wall. A row shorter than the first one has
   * no cell there, which the source reads as not a wall.
   */
  predicate WallUnder(maze: seq<seq<CellKind>>, x: real, y: real)
    requires 0.0 <= y < |maze| as real && 0.0 <= x
  {
    var row := maze[y.Floor];
    x.Floor < |row| && row[x.Floor] == Wall
  }

  /** `tryMove`'s test: strictly inside the maze and not over a wall. */
  predicate Open(maze: seq<seq<CellKind>>, x: real, y: real)
  {
    x > 0.0 && y > 0.0 && y < |maze| as real && x < |maze[0]| as real && !WallUnder(maze, x, y)
  }

  /** Where a move by `(dx, dy)` from `(x, y)` leaves the player, and whether it was taken. */
  function Moved(maze: seq<seq<CellKind>>, x: real, y: real, dx: real, dy: real): (real, real, bool)
  {
    if Open(maze, x + dx, y + dy) then (x + dx, y + dy, true) else (x, y, false)
  }

  /**
   * A move either lands exactly on the target in an open cell or leaves the
   * player where it was; so a player in an open cell stays in one.
   */
  lemma MovedStaysOpen(maze: seq<seq<CellKind>>, x: real, y: real, dx: real, dy: real)
    ensures var (x', y', ok) := Moved(maze, x, y, dx, dy);
      (ok <==> Open(maze, x + dx, y + dy)) &&
      (ok ==> x' == x + dx && y' == y + dy) &&
      (!ok ==> x' == x && y' == y) &&
      (Open(maze, x, y) ==> Open(maze, x', y'))
  {
  }

  /** The player starts at (1.5, 1): in cell (1, 1), which is open whenever that cell is a path. */
  lemma StartIsOpen(maze: seq<seq<CellKind>>)
    requires |maze| >= 2 && |maze[0]| >= 2 && |maze[1]| >= 2 && maze[1][1] == Path
    ensures Open(maze, 1.5, 1.0)
  {
    assert (1.5).Floor == 1 && (1.0).Floor == 1;
  }

  // ---------------------------------------------------------------------------
  // Keys
  // ---------------------------------------------------------------------------

  /** `toLowerCase` on the ASCII letters. */
  function LowerChar(c: char): char
  {
    if 'A' <= c <= 'Z' then (c as int + 32) as char else c
  }

  function Lower(s: string): (r: string)
  {
    if s == [] then [] else [LowerChar(s[0])] + Lower(s[1..])
  }

  /** Lower-casing keeps the length, maps each character, and doing it twice is doing it once. */
  lemma {:induction false} LowerIsCharwise(s: string)
    ensures |Lower(s)| == |s|
    ensures forall i | 0 <= i < |s| :: Lower(s)[i] == LowerChar(s[i])
    ensures Lower(Lower(s)) == Lower(s)
  {
    if s != [] {
      LowerIsCharwise(s[1..]);
      assert LowerChar(LowerChar(s[0])) == LowerChar(s[0]);
      assert Lower(Lower(s)) == [LowerChar(LowerChar(s[0]))] + Lower(Lower(s[1..]));
    }
  }

  /** A key counts as held when it was pressed and not released since; an unknown key is not held. */
  predicate Held(keys: map<string, bool>, k: string)
  {
    k in keys && keys[k]
  }

  predicate Forward(keys: map<string, bool>) { Held(keys, "w") || Held(keys, "arrowup") }
  predicate Backward(keys: map<string, bool>) { Held(keys, "s") || Held(keys, "arrowdown") }
  predicate TurnsLeft(keys: map<string, bool>) { Held(keys, "a") || Held(keys, "arrowleft") }
  predicate TurnsRight(keys: map<string, bool>) { Held(keys, "d") || Held(keys, "arrowright") }
  predicate Turning(keys: map<string, bool>) { TurnsLeft(keys) || TurnsRight(keys) }

  /**
   * The moves of one frame: forward along the heading `(cos, sin)` if held,
   * then back against it if held. The flag says whether either was taken.
   */
  function Walk(maze: seq<seq<CellKind>>, x: real, y: real, keys: map<string, bool>, cos: real, sin: real)
    : (real, real, bool)
  {
    var (x1, y1, ok1) := if Forward(keys) then Moved(maze, x, y, cos * MoveSpeed, sin * MoveSpeed) else (x, y, false);
    var (x2, y2, ok2) := if Backward(keys) then Moved(maze, x1, y1, -cos * MoveSpeed, -sin * MoveSpeed) else (x1, y1, false);
    (x2, y2, ok1 || ok2)
  }

  /** A frame's moves keep a player that is in an open cell in an open cell. */
  lemma WalkStaysOpen(maze: seq<seq<CellKind>>, x: real, y: real, keys: map<string, bool>, cos: real, sin: real)
    requires Open(maze, x, y)
    ensures var (x', y', _) := Walk(maze, x, y, keys, cos, sin); Open(maze, x', y')
  {
    MovedStaysOpen(maze, x, y, cos * MoveSpeed, sin * MoveSpeed);
    var (x1, y1, _) := if Forward(keys) then Moved(maze, x, y, cos * MoveSpeed, sin * MoveSpeed) else (x, y, false);
    MovedStaysOpen(maze, x1, y1, -cos * MoveSpeed, -sin * MoveSpeed);
  }

  // ---------------------------------------------------------------------------
  // Shading
  // ---------------------------------------------------------------------------

  /**
   * The shade a wall slice falls back to at corrected distance `d` in a
   * palette of `steps` shades: the band `floor(d / MaxDepth * steps)`, never
   * beyond the last shade.
   */
  function ShadeBucket(d: real, steps: int): (k: int)
    requires d >= 0.0 && steps >= 1
    ensures 0 <= k <= steps - 1
  {
    var band := (d / MaxDepth * steps as real).Floor;
    if steps - 1 < band then steps - 1 else band
  }

  /** A further slice is never drawn in a nearer band, and from `MaxDepth` on it is in the last one. */
  lemma ShadeBucketMonotone(d1: real, d2: real, steps: int)
    requires 0.0 <= d1 <= d2 && steps >= 1
    ensures ShadeBucket(d1, steps) <= ShadeBucket(d2, steps)
    ensures d2 >= MaxDepth ==> ShadeBucket(d2, steps) == steps - 1
  {
    var s := steps as real;
    assert d1 / MaxDepth <= d2 / MaxDepth by {
      assert d1 / MaxDepth == d1 * 0.125 && d2 / MaxDepth == d2 * 0.125;
    }
    ScaleMonotone(d1 / MaxDepth, d2 / MaxDepth, s);
    FloorMonotone(d1 / MaxDepth * s, d2 / MaxDepth * s);
    if d2 >= MaxDepth {
      assert d2 / MaxDepth >= 1.0 by {
        assert d2 / MaxDepth == d2 * 0.125;
      }
      ScaleMonotone(1.0, d2 / MaxDepth, s);
      assert (d2 / MaxDepth * s).Floor >= steps;
    }
  }

  /** Rounding down keeps the order. */
  lemma FloorMonotone(a: real, b: real)
    requires a <= b
    ensures a.Floor <= b.Floor
  {
    assert a.Floor as real <= a && b < b.Floor as real + 1.0;
  }

  /** Scaling by a non-negative factor keeps the order. */
  lemma ScaleMonotone(a: real, b: real, s: real)
    requires a <= b && s >= 0.0
    ensures a * s <= b * s
  {
    assert b * s - a * s == (b - a) * s;
  }

  // ---------------------------------------------------------------------------
  // The player
  // ---------------------------------------------------------------------------

  class Raycaster {
    const maze: seq<seq<CellKind>>
    var x: real
    var y: real
    var angle: real
    var keys: map<string, bool>

    /** The player starts at (1.5, 1) facing angle 0 with no key held. */
    constructor (maze: seq<seq<CellKind>>)
      ensures this.maze == maze && x == 1.5 && y == 1.0 && angle == 0.0 && keys == map[]
    {
      this.maze := maze;
      x := 1.5;
      y := 1.0;
      angle := 0.0;
      keys := map[];
    }

    /** `tryMove`: moves by `(dx, dy)` when the target is open, and says whether it did. */
    method TryMove(dx: real, dy: real) returns (ok: bool)
      modifies this
      ensures (x, y, ok) == Moved(maze, old(x), old(y), dx, dy)
      ensures angle == old(angle) && keys == old(keys)
    {
      var nx := x + dx;
      var ny := y + dy;
      if nx > 0.0 && ny > 0.0 && ny < |maze| as real && nx < |maze[0]| as real && !WallUnder(maze, nx, ny) {
        x := nx;
        y := ny;
        return true;
      }
      return false;
    }

    /** `onKeyDown`: the lower-cased key is held from now on. */
    method OnKeyDown(key: string)
      modifies this
      ensures keys == old(keys)[Lower(key) := true]
      ensures x == old(x) && y == old(y) && angle == old(angle)
    {
      keys := keys[Lower(key) := true];
    }

    /** `onKeyUp`: the lower-cased key is released. */
    method OnKeyUp(key: string)
      modifies this
      ensures keys == old(keys)[Lower(key) := false]
      ensures x == old(x) && y == old(y) && angle == old(angle)
    {
      keys := keys[Lower(key) := false];
    }

    /**
     * One frame of the ticker, with the cosine and sine of the heading at the
     * start of the frame passed in. Forward, then back, are tried as moves;
     * left and right turn unconditionally. `moved` says whether the view is
     * redrawn: a move that was taken, or any turn.
     */
    method Tick(cos: real, sin: real) returns (moved: bool)
      modifies this
      ensures keys == old(keys)
      ensures var (x', y', walked) := Walk(maze, old(x), old(y), keys, cos, sin);
        x == x' && y == y' && moved == (walked || Turning(keys))
      ensures angle == old(angle) - (if TurnsLeft(keys) then RotSpeed else 0.0)
        + (if TurnsRight(keys) then RotSpeed else 0.0)
    {
      ghost var first := if Forward(keys) then Moved(maze, x, y, cos * MoveSpeed, sin * MoveSpeed) else (x, y, false);
      moved := false;
      if Forward(keys) {
        var ok := TryMove(cos * MoveSpeed, sin * MoveSpeed);
        moved := ok || moved;
      }
      assert (x, y, moved) == first;
      ghost var second := if Backward(keys) then Moved(maze, x, y, -cos * MoveSpeed, -sin * MoveSpeed) else (x, y, false);
      if Backward(keys) {
        var ok := TryMove(-cos * MoveSpeed, -sin * MoveSpeed);
        moved := ok || moved;
      }
      assert x == second.0 && y == second.1 && moved == (first.2 || second.2);
      if TurnsLeft(keys) {
        angle := angle - RotSpeed;
        moved := true;
      }
      if TurnsRight(keys) {
        angle := angle + RotSpeed;
        moved := true;
      }
    }
  }
}
