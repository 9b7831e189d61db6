/**
 * The maze generator of src/app/utils/MazeGenerator.ts: a randomized
 * depth-first carve over an odd-sized grid of walls.
 *
 * The grid is an `array2` indexed `[y, x]`, as the source indexes
 * `maze[y][x]`. The random order in which `carve` tries the four directions
 * is supplied by the caller as `shuffle(x, y)`: every room is carved at most
 * once, so one permutation per room is exactly one draw per call of `carve`.
 */
module Generator {
  import opened Sets
  import Grid

  /** The two cell types of the generated grid (`MazeCellType`). */
  datatype CellKind = Wall | Path

  /** The four carving directions, in the source's unshuffled order. */
  datatype Dir = Up | Right | Down | Left

  function DX(d: Dir): int
  {
    match d
    case Up => 0
    case Right => 2
    case Down => 0
    case Left => -2
  }

  function DY(d: Dir): int
  {
    match d
    case Up => -2
    case Right => 0
    case Down => 2
    case Left => 0
  }

  /** What a shuffle of the direction list may return: the four directions, each once. */
  predicate IsShuffle(s: seq<Dir>)
  {
    |s| == 4 && Up in s && Right in s && Down in s && Left in s
  }

  predicate Odd(n: int) { n % 2 == 1 }

  /** An even dimension is bumped to the next odd number; an odd one is kept. */
  function RoundUpToOdd(n: int): (r: int)
    ensures Odd(r)
    ensures n <= r <= n + 1
    ensures Odd(n) ==> r == n
  {
    if n % 2 == 0 then n + 1 else n
  }

  /** A room: a cell with both coordinates odd, strictly inside the grid. */
  predicate IsRoom(w: int, h: int, x: int, y: int)
  {
    0 < x < w && 0 < y < h && Odd(x) && Odd(y)
  }

  /** A connector: an interior cell with exactly one odd coordinate. */
  predicate IsConnector(w: int, h: int, x: int, y: int)
  {
    0 < x < w - 1 && 0 < y < h - 1 && Odd(x) != Odd(y)
  }

  /** The rooms that have been carved to path. */
  ghost function Rooms(maze: array2<CellKind>): set<(int, int)>
    reads maze
  {
    set y, x | 0 <= y < maze.Length0 && 0 <= x < maze.Length1 &&
               IsRoom(maze.Length1, maze.Length0, x, y) && maze[y, x] == Path :: (x, y)
  }

  /** The rooms still wall: the measure that shrinks at every recursive carve. */
  ghost function WallRooms(maze: array2<CellKind>): set<(int, int)>
    reads maze
  {
    set y, x | 0 <= y < maze.Length0 && 0 <= x < maze.Length1 &&
               IsRoom(maze.Length1, maze.Length0, x, y) && maze[y, x] == Wall :: (x, y)
  }

  /** The connectors that have been opened to path. */
  ghost function Connectors(maze: array2<CellKind>): set<(int, int)>
    reads maze
  {
    set y, x | 0 <= y < maze.Length0 && 0 <= x < maze.Length1 &&
               IsConnector(maze.Length1, maze.Length0, x, y) && maze[y, x] == Path :: (x, y)
  }

  /**
   * Cell (x, y) is inside the grid and path. Quantifiers over the grid use
   * this predicate as their trigger, so that the neighbour reads in
   * EndsCarved and Tried do not set off further instantiations.
   */
  ghost predicate IsPath(maze: array2<CellKind>, x: int, y: int)
    reads maze
  {
    0 <= y < maze.Length0 && 0 <= x < maze.Length1 && maze[y, x] == Path
  }

  /** Both rooms that the connector at (x, y) joins are path. */
  ghost predicate EndsCarved(maze: array2<CellKind>, x: int, y: int)
    reads maze
    requires IsConnector(maze.Length1, maze.Length0, x, y)
  {
    if Odd(x) then maze[y - 1, x] == Path && maze[y + 1, x] == Path
    else maze[y, x - 1] == Path && maze[y, x + 1] == Path
  }

  /**
   * The shape carving keeps: every path cell is a room, or a connector both of
   * whose rooms are path. In particular no cell with both coordinates even and
   * no border cell is path.
   */
  ghost predicate Carved(maze: array2<CellKind>)
    reads maze
  {
    forall y, x {:trigger IsPath(maze, x, y)} | IsPath(maze, x, y) :: CarvedCell(maze, x, y)
  }

  /** A path cell that carving may produce: a room, or a connector between two carved rooms. */
  ghost predicate CarvedCell(maze: array2<CellKind>, x: int, y: int)
    reads maze
  {
    IsRoom(maze.Length1, maze.Length0, x, y) ||
    (IsConnector(maze.Length1, maze.Length0, x, y) && EndsCarved(maze, x, y))
  }

  /** The room one step in direction d from (x, y) is outside the grid or already carved. */
  ghost predicate Tried(maze: array2<CellKind>, x: int, y: int, d: Dir)
    reads maze
  {
    var nx, ny := x + DX(d), y + DY(d);
    !(0 < nx < maze.Length1 && 0 < ny < maze.Length0) || maze[ny, nx] == Path
  }

  /** Every direction from (x, y) has been tried. */
  ghost predicate Finished(maze: array2<CellKind>, x: int, y: int)
    reads maze
  {
    Tried(maze, x, y, Up) && Tried(maze, x, y, Right) &&
    Tried(maze, x, y, Down) && Tried(maze, x, y, Left)
  }

  /** Every room carved to path, except those in `active`, has had all four directions tried. */
  ghost predicate FinishedExcept(maze: array2<CellKind>, active: set<(int, int)>)
    reads maze
  {
    forall j, i {:trigger IsPath(maze, i, j)} |
      IsPath(maze, i, j) && IsRoom(maze.Length1, maze.Length0, i, j) && (i, j) !in active ::
      Finished(maze, i, j)
  }

  /** Rooms minus opened connectors: carving a passage leaves it unchanged. */
  ghost function Surplus(maze: array2<CellKind>): int
    reads maze
  {
    |Rooms(maze)| - |Connectors(maze)|
  }

  /** The room one step in direction d from (x, y). */
  function Neighbour(x: int, y: int, d: Dir): (int, int)
  {
    (x + DX(d), y + DY(d))
  }

  /** The connector between (x, y) and its neighbouring room in direction d. */
  function Between(x: int, y: int, d: Dir): (int, int)
  {
    (x + DX(d) / 2, y + DY(d) / 2)
  }

  /** The grid differs from the previous state only in that `a` and `b` are now path. */
  twostate predicate OnlyOpened(maze: array2<CellKind>, a: (int, int), b: (int, int))
    reads maze
  {
    forall j, i | 0 <= j < maze.Length0 && 0 <= i < maze.Length1 ::
      maze[j, i] == if (i, j) == a || (i, j) == b then Path else old(maze[j, i])
  }

  /** No path cell has become wall since the previous state. */
  twostate predicate Grew(maze: array2<CellKind>)
    reads maze
  {
    forall j, i | 0 <= j < maze.Length0 && 0 <= i < maze.Length1 ::
      old(maze[j, i]) == Path ==> maze[j, i] == Path
  }

  /** A walk over path cells: every step goes to one of the four orthogonal neighbours. */
  ghost predicate IsTrail(maze: array2<CellKind>, w: seq<(int, int)>)
    reads maze
  {
    |w| >= 1 &&
    (forall k | 0 <= k < |w| :: IsPath(maze, w[k].0, w[k].1)) &&
    (forall k | 0 <= k < |w| - 1 :: Grid.Adjacent(w[k], w[k + 1]))
  }

  /** Some walk over path cells leads from the first room (1, 1) to p. */
  ghost predicate ReachedFromStart(maze: array2<CellKind>, p: (int, int))
    reads maze
  {
    exists w :: IsTrail(maze, w) && w[0] == (1, 1) && w[|w| - 1] == p
  }

  /** Every path cell can be walked to from room (1, 1) without crossing a wall. */
  ghost predicate Connected(maze: array2<CellKind>)
    reads maze
  {
    forall y, x {:trigger IsPath(maze, x, y)} | IsPath(maze, x, y) :: ReachedFromStart(maze, (x, y))
  }

  /** Whatever was reachable from (1, 1) still is once the grid has only grown. */
  twostate lemma ReachKept(maze: array2<CellKind>, new p: (int, int))
    requires old(ReachedFromStart(maze, p)) && Grew(maze)
    ensures ReachedFromStart(maze, p)
  {
    var w: seq<(int, int)> :| old(IsTrail(maze, w)) && w[0] == (1, 1) && w[|w| - 1] == p;
    forall k | 0 <= k < |w| ensures IsPath(maze, w[k].0, w[k].1) {
      assert old(IsPath(maze, w[k].0, w[k].1));
    }
    assert IsTrail(maze, w);
  }

  /** What the caller of OpenPassage must establish. */
  ghost predicate CanOpen(maze: array2<CellKind>, x: int, y: int, d: Dir)
    reads maze
  {
    Odd(maze.Length0) && Odd(maze.Length1) &&
    IsRoom(maze.Length1, maze.Length0, x, y) && maze[y, x] == Path &&
    Carved(maze) &&
    0 < x + DX(d) < maze.Length1 && 0 < y + DY(d) < maze.Length0 &&
    maze[y + DY(d), x + DX(d)] == Wall
  }

  /** The connector that OpenPassage opens is still wall beforehand. */
  lemma ConnectorClosed(maze: array2<CellKind>, x: int, y: int, d: Dir)
    requires CanOpen(maze, x, y, d)
    ensures IsConnector(maze.Length1, maze.Length0, Between(x, y, d).0, Between(x, y, d).1)
    ensures maze[Between(x, y, d).1, Between(x, y, d).0] == Wall
  {
    var (cx, cy) := Between(x, y, d);
    assert IsPath(maze, cx, cy) ==> EndsCarved(maze, cx, cy);
  }

  twostate lemma OpenKeepsCarved(maze: array2<CellKind>, new x: int, new y: int, new d: Dir)
    requires old(CanOpen(maze, x, y, d))
    requires OnlyOpened(maze, Neighbour(x, y, d), Between(x, y, d))
    ensures Carved(maze)
  {
    var (nx, ny) := Neighbour(x, y, d);
    var (cx, cy) := Between(x, y, d);
    forall j, i | IsPath(maze, i, j)
      ensures CarvedCell(maze, i, j)
    {
      if (i, j) != (cx, cy) && (i, j) != (nx, ny) {
        assert old(IsPath(maze, i, j));
      }
    }
  }

  /** A path cell next to a cell reachable from (1, 1) is reachable too. */
  lemma ReachStep(maze: array2<CellKind>, p: (int, int), q: (int, int))
    requires ReachedFromStart(maze, p) && IsPath(maze, q.0, q.1) && Grid.Adjacent(p, q)
    ensures ReachedFromStart(maze, q)
  {
    var w: seq<(int, int)> :| IsTrail(maze, w) && w[0] == (1, 1) && w[|w| - 1] == p;
    assert IsTrail(maze, w + [q]);
  }

  /**
   * The connector and the room that OpenPassage opens are reached through
   * (x, y), so every path cell stays reachable from (1, 1).
   */
  twostate lemma OpenKeepsConnected(maze: array2<CellKind>, new x: int, new y: int, new d: Dir)
    requires old(IsPath(maze, x, y)) && old(Connected(maze))
    requires 0 < x + DX(d) < maze.Length1 && 0 < y + DY(d) < maze.Length0
    requires OnlyOpened(maze, Neighbour(x, y, d), Between(x, y, d))
    ensures Connected(maze)
  {
    var n, c := Neighbour(x, y, d), Between(x, y, d);
    assert Grew(maze);
    ReachKept(maze, (x, y));
    ReachStep(maze, (x, y), c);
    ReachStep(maze, c, n);
    forall j, i | IsPath(maze, i, j) ensures ReachedFromStart(maze, (i, j)) {
      if (i, j) != c && (i, j) != n {
        assert old(IsPath(maze, i, j));
        ReachKept(maze, (i, j));
      }
    }
  }

  twostate lemma OpenKeepsFinished(maze: array2<CellKind>, new x: int, new y: int, new d: Dir,
                                   new active: set<(int, int)>)
    requires old(CanOpen(maze, x, y, d))
    requires forall j, i | old(IsPath(maze, i, j)) && IsRoom(maze.Length1, maze.Length0, i, j) && (i, j) !in active ::
      old(Finished(maze, i, j))
    requires OnlyOpened(maze, Neighbour(x, y, d), Between(x, y, d))
    ensures FinishedExcept(maze, active + {Neighbour(x, y, d)})
  {
    var (nx, ny) := Neighbour(x, y, d);
    forall j, i | IsPath(maze, i, j) && IsRoom(maze.Length1, maze.Length0, i, j) &&
                  (i, j) !in active + {(nx, ny)}
      ensures Finished(maze, i, j)
    {
      assert old(IsPath(maze, i, j));
    }
  }

  twostate lemma OpenGrows(maze: array2<CellKind>, new x: int, new y: int, new d: Dir)
    requires OnlyOpened(maze, Neighbour(x, y, d), Between(x, y, d))
    requires 0 < x + DX(d) < maze.Length1 && 0 < y + DY(d) < maze.Length0
    ensures Grew(maze) && maze[y + DY(d), x + DX(d)] == Path
  {
  }

  twostate lemma OpenAddsRoom(maze: array2<CellKind>, new x: int, new y: int, new d: Dir)
    requires old(CanOpen(maze, x, y, d))
    requires OnlyOpened(maze, Neighbour(x, y, d), Between(x, y, d))
    requires IsConnector(maze.Length1, maze.Length0, Between(x, y, d).0, Between(x, y, d).1)
    ensures Rooms(maze) == old(Rooms(maze)) + {Neighbour(x, y, d)}
    ensures Neighbour(x, y, d) !in old(Rooms(maze))
  {
    var (nx, ny) := Neighbour(x, y, d);
    forall p | p in Rooms(maze) ensures p in old(Rooms(maze)) + {(nx, ny)} {
      if p != (nx, ny) {
        assert old(maze[p.1, p.0]) == Path;
      }
    }
    forall p | p in old(Rooms(maze)) + {(nx, ny)} ensures p in Rooms(maze) {
      assert maze[p.1, p.0] == Path;
    }
  }

  twostate lemma OpenAddsConnector(maze: array2<CellKind>, new x: int, new y: int, new d: Dir)
    requires IsRoom(maze.Length1, maze.Length0, x, y)
    requires OnlyOpened(maze, Neighbour(x, y, d), Between(x, y, d))
    requires IsConnector(maze.Length1, maze.Length0, Between(x, y, d).0, Between(x, y, d).1)
    requires old(maze[Between(x, y, d).1, Between(x, y, d).0]) == Wall
    ensures Connectors(maze) == old(Connectors(maze)) + {Between(x, y, d)}
    ensures Between(x, y, d) !in old(Connectors(maze))
  {
    var (cx, cy) := Between(x, y, d);
    forall p | p in Connectors(maze) ensures p in old(Connectors(maze)) + {(cx, cy)} {
      if p != (cx, cy) {
        assert old(maze[p.1, p.0]) == Path;
      }
    }
    forall p | p in old(Connectors(maze)) + {(cx, cy)} ensures p in Connectors(maze) {
      assert maze[p.1, p.0] == Path;
    }
  }

  /** One more room and one more connector: the surplus of rooms over connectors is unchanged. */
  twostate lemma OpenKeepsSurplus(maze: array2<CellKind>, new x: int, new y: int, new d: Dir)
    requires old(CanOpen(maze, x, y, d))
    requires OnlyOpened(maze, Neighbour(x, y, d), Between(x, y, d))
    requires IsConnector(maze.Length1, maze.Length0, Between(x, y, d).0, Between(x, y, d).1)
    requires old(maze[Between(x, y, d).1, Between(x, y, d).0]) == Wall
    ensures Surplus(maze) == old(Surplus(maze))
  {
    OpenAddsRoom(maze, x, y, d);
    OpenAddsConnector(maze, x, y, d);
    OneMoreEach(old(Rooms(maze)), old(Connectors(maze)), Neighbour(x, y, d), Between(x, y, d));
  }

  twostate lemma OpenShrinksWalls(maze: array2<CellKind>, new x: int, new y: int, new d: Dir)
    requires old(CanOpen(maze, x, y, d))
    requires OnlyOpened(maze, Neighbour(x, y, d), Between(x, y, d))
    ensures WallRooms(maze) == old(WallRooms(maze)) - {Neighbour(x, y, d)}
    ensures |WallRooms(maze)| < old(|WallRooms(maze)|)
  {
    var n := Neighbour(x, y, d);
    ghost var walls := old(WallRooms(maze));
    assert n in walls;
    assert WallRooms(maze) == walls - {n};
    CardinalityMonotone(walls - {n}, walls, n);
  }

  /**
   * Opens the connector between (x, y) and the room in direction d, then that
   * room. Nothing else changes, the carved shape is kept, the surplus of rooms
   * over connectors is unchanged and there is one wall room fewer.
   */
  method OpenPassage(maze: array2<CellKind>, x: int, y: int, d: Dir, ghost active: set<(int, int)>)
    requires CanOpen(maze, x, y, d) && FinishedExcept(maze, active) && Connected(maze)
    modifies maze
    ensures OnlyOpened(maze, Neighbour(x, y, d), Between(x, y, d))
    ensures Carved(maze) && FinishedExcept(maze, active + {Neighbour(x, y, d)})
    ensures Connected(maze)
    ensures Grew(maze) && maze[y + DY(d), x + DX(d)] == Path
    ensures Surplus(maze) == old(Surplus(maze))
    ensures WallRooms(maze) == old(WallRooms(maze)) - {Neighbour(x, y, d)}
    ensures |WallRooms(maze)| < old(|WallRooms(maze)|)
  {
    var (nx, ny) := Neighbour(x, y, d);
    var (cx, cy) := Between(x, y, d);
    ConnectorClosed(maze, x, y, d);
    maze[cy, cx] := Path;
    maze[ny, nx] := Path;
    OpenKeepsCarved(maze, x, y, d);
    OpenKeepsConnected(maze, x, y, d);
    OpenKeepsFinished(maze, x, y, d, active);
    OpenGrows(maze, x, y, d);
    OpenKeepsSurplus(maze, x, y, d);
    OpenShrinksWalls(maze, x, y, d);
  }

  /**
   * `carve(x, y)`: tries the four directions in the order `shuffle(x, y)`.
   * `active` holds the rooms whose calls are still on the stack below this one.
   */
  method Carve(maze: array2<CellKind>, x: int, y: int, shuffle: (int, int) -> seq<Dir>,
               ghost active: set<(int, int)>)
    requires forall a, b :: IsShuffle(shuffle(a, b))
    requires Odd(maze.Length0) && Odd(maze.Length1)
    requires IsRoom(maze.Length1, maze.Length0, x, y) && maze[y, x] == Path
    requires Carved(maze) && FinishedExcept(maze, active + {(x, y)}) && Connected(maze)
    modifies maze
    ensures Carved(maze) && FinishedExcept(maze, active) && Connected(maze)
    ensures Grew(maze)
    ensures Surplus(maze) == old(Surplus(maze))
    ensures WallRooms(maze) <= old(WallRooms(maze))
    decreases |WallRooms(maze)|, 1
  {
    var dirs := shuffle(x, y);
    var k := 0;
    while k < 4
      invariant 0 <= k <= 4
      invariant maze[y, x] == Path
      invariant Carved(maze) && FinishedExcept(maze, active + {(x, y)}) && Connected(maze)
      invariant Grew(maze)
      invariant Surplus(maze) == old(Surplus(maze))
      invariant WallRooms(maze) <= old(WallRooms(maze))
      invariant forall m | 0 <= m < k :: Tried(maze, x, y, dirs[m])
    {
      SubsetCardinality(WallRooms(maze), old(WallRooms(maze)));
      label Iter:
      TryDirection(maze, x, y, dirs[k], shuffle, active);
      forall m | 0 <= m < k ensures Tried(maze, x, y, dirs[m]) {
        assert old@Iter(Tried(maze, x, y, dirs[m]));
      }
      k := k + 1;
    }
    assert Finished(maze, x, y) by {
      assert forall e: Dir :: e in dirs ==> Tried(maze, x, y, e);
    }
  }

  /**
   * One pass of the loop in `carve`: if the room in direction d is inside the
   * grid and still wall, opens the connector and the room and recurses into it.
   */
  method TryDirection(maze: array2<CellKind>, x: int, y: int, d: Dir,
                      shuffle: (int, int) -> seq<Dir>, ghost active: set<(int, int)>)
    requires forall a, b :: IsShuffle(shuffle(a, b))
    requires Odd(maze.Length0) && Odd(maze.Length1)
    requires IsRoom(maze.Length1, maze.Length0, x, y) && maze[y, x] == Path
    requires Carved(maze) && FinishedExcept(maze, active + {(x, y)}) && Connected(maze)
    modifies maze
    ensures maze[y, x] == Path && Tried(maze, x, y, d)
    ensures Carved(maze) && FinishedExcept(maze, active + {(x, y)}) && Connected(maze)
    ensures Grew(maze)
    ensures Surplus(maze) == old(Surplus(maze))
    ensures WallRooms(maze) <= old(WallRooms(maze))
    decreases |WallRooms(maze)|, 0
  {
    var nx, ny := x + DX(d), y + DY(d);
    if 0 < nx < maze.Length1 && 0 < ny < maze.Length0 && maze[ny, nx] == Wall {
      OpenPassage(maze, x, y, d, active + {(x, y)});
      label Opened:
      Carve(maze, nx, ny, shuffle, active + {(x, y)});
      assert Grew(maze) by {
        forall j, i | 0 <= j < maze.Length0 && 0 <= i < maze.Length1 && old(maze[j, i]) == Path
          ensures maze[j, i] == Path
        {
          assert old@Opened(maze[j, i]) == Path;
        }
      }
    }
  }

  /** Adding a new element to each of two sets keeps the difference of their sizes. */
  lemma OneMoreEach<T>(a: set<T>, b: set<T>, x: T, y: T)
    requires x !in a && y !in b
    ensures |a + {x}| - |b + {y}| == |a| - |b|
  {
  }

  /** The entry stub (0, 1) or the exit stub (width-1, height-2). */
  predicate IsStub(w: int, h: int, x: int, y: int)
  {
    (x, y) == (0, 1) || (x, y) == (w - 1, h - 2)
  }

  /**
   * The finished maze: every path cell other than the two stubs is a room or a
   * connector between two path rooms.
   */
  ghost predicate Shaped(maze: array2<CellKind>)
    reads maze
  {
    forall y, x {:trigger IsPath(maze, x, y)} |
      IsPath(maze, x, y) && !IsStub(maze.Length1, maze.Length0, x, y) :: CarvedCell(maze, x, y)
  }

  /** Every room of the grid is path. */
  ghost predicate AllRoomsCarved(maze: array2<CellKind>)
    reads maze
  {
    forall y, x | 0 <= y < maze.Length0 && 0 <= x < maze.Length1 &&
      IsRoom(maze.Length1, maze.Length0, x, y) :: maze[y, x] == Path
  }

  /**
   * Once no call of `carve` is active, every room is path: the room left of
   * or above any room other than (1, 1) was finished, so it carved that room.
   */
  lemma {:induction false} RoomReached(maze: array2<CellKind>, x: int, y: int)
    requires Odd(maze.Length0) && Odd(maze.Length1)
    requires FinishedExcept(maze, {}) && IsPath(maze, 1, 1)
    requires IsRoom(maze.Length1, maze.Length0, x, y)
    ensures maze[y, x] == Path
    decreases x + y
  {
    if x > 1 {
      RoomReached(maze, x - 2, y);
      assert IsPath(maze, x - 2, y);
      assert Tried(maze, x - 2, y, Right);
    } else if y > 1 {
      RoomReached(maze, x, y - 2);
      assert IsPath(maze, x, y - 2);
      assert Tried(maze, x, y - 2, Down);
    }
  }

  lemma CompletedCarveReachesAllRooms(maze: array2<CellKind>)
    requires Odd(maze.Length0) && Odd(maze.Length1)
    requires FinishedExcept(maze, {}) && IsPath(maze, 1, 1)
    ensures AllRoomsCarved(maze)
  {
    forall y, x | 0 <= y < maze.Length0 && 0 <= x < maze.Length1 &&
      IsRoom(maze.Length1, maze.Length0, x, y)
      ensures maze[y, x] == Path
    {
      RoomReached(maze, x, y);
    }
  }

  /** No cell with both coordinates even is ever path. */
  lemma EvenCellsStayWall(maze: array2<CellKind>)
    requires Odd(maze.Length0) && Odd(maze.Length1) && Shaped(maze)
    ensures forall y, x | 0 <= y < maze.Length0 && 0 <= x < maze.Length1 &&
      y % 2 == 0 && x % 2 == 0 :: maze[y, x] == Wall
  {
    forall y, x | 0 <= y < maze.Length0 && 0 <= x < maze.Length1 && y % 2 == 0 && x % 2 == 0
      ensures maze[y, x] == Wall
    {
      assert IsPath(maze, x, y) ==> CarvedCell(maze, x, y);
    }
  }

  /** The border is wall except for the entry and the exit. */
  lemma BorderStaysWall(maze: array2<CellKind>)
    requires Odd(maze.Length0) && Odd(maze.Length1) && Shaped(maze)
    ensures forall y, x | 0 <= y < maze.Length0 && 0 <= x < maze.Length1 &&
      (y == 0 || y == maze.Length0 - 1 || x == 0 || x == maze.Length1 - 1) &&
      !IsStub(maze.Length1, maze.Length0, x, y) :: maze[y, x] == Wall
  {
    forall y, x | 0 <= y < maze.Length0 && 0 <= x < maze.Length1 &&
      (y == 0 || y == maze.Length0 - 1 || x == 0 || x == maze.Length1 - 1) &&
      !IsStub(maze.Length1, maze.Length0, x, y)
      ensures maze[y, x] == Wall
    {
      assert IsPath(maze, x, y) ==> CarvedCell(maze, x, y);
    }
  }

  /** The grid right before carving: all wall except room (1, 1). */
  lemma StartIsCarved(maze: array2<CellKind>)
    requires Odd(maze.Length0) && Odd(maze.Length1) && maze.Length0 >= 3 && maze.Length1 >= 3
    requires forall y, x | 0 <= y < maze.Length0 && 0 <= x < maze.Length1 ::
      maze[y, x] == if (x, y) == (1, 1) then Path else Wall
    ensures Carved(maze) && FinishedExcept(maze, {(1, 1)}) && Connected(maze)
    ensures Surplus(maze) == 1
  {
    forall y, x | IsPath(maze, x, y) ensures ReachedFromStart(maze, (x, y)) {
      assert IsTrail(maze, [(1, 1)]);
    }
    assert Rooms(maze) == {(1, 1)} by {
      forall p | p in Rooms(maze) ensures p == (1, 1) {
        assert maze[p.1, p.0] == Path;
      }
      assert IsRoom(maze.Length1, maze.Length0, 1, 1);
    }
    assert Connectors(maze) == {} by {
      assert forall y, x | 0 <= y < maze.Length0 && 0 <= x < maze.Length1 &&
        IsConnector(maze.Length1, maze.Length0, x, y) :: maze[y, x] == Wall;
    }
  }

  /** Adding the two stubs changes neither the rooms nor the connectors. */
  twostate lemma StubsKeepCounts(maze: array2<CellKind>)
    requires Odd(maze.Length0) && Odd(maze.Length1) && maze.Length0 >= 3 && maze.Length1 >= 3
    requires forall y, x | 0 <= y < maze.Length0 && 0 <= x < maze.Length1 ::
      maze[y, x] == if IsStub(maze.Length1, maze.Length0, x, y) then Path else old(maze[y, x])
    requires old(Carved(maze))
    ensures Rooms(maze) == old(Rooms(maze)) && Connectors(maze) == old(Connectors(maze))
    ensures Shaped(maze)
  {
    forall y, x | IsPath(maze, x, y) && !IsStub(maze.Length1, maze.Length0, x, y)
      ensures CarvedCell(maze, x, y)
    {
      assert old(IsPath(maze, x, y));
    }
    forall p | p in Rooms(maze) ensures p in old(Rooms(maze)) {
      assert old(maze[p.1, p.0]) == Path;
    }
    forall p | p in old(Rooms(maze)) ensures p in Rooms(maze) {
      assert maze[p.1, p.0] == Path;
    }
    forall p | p in Connectors(maze) ensures p in old(Connectors(maze)) {
      assert old(maze[p.1, p.0]) == Path;
    }
    forall p | p in old(Connectors(maze)) ensures p in Connectors(maze) {
      assert maze[p.1, p.0] == Path;
    }
  }

  /**
   * The entry stub is next to room (1, 1) and the exit stub next to room
   * (width-2, height-2), so the stubs keep every path cell reachable.
   */
  twostate lemma StubsKeepConnected(maze: array2<CellKind>)
    requires Odd(maze.Length0) && Odd(maze.Length1) && maze.Length0 >= 3 && maze.Length1 >= 3
    requires forall y, x | 0 <= y < maze.Length0 && 0 <= x < maze.Length1 ::
      maze[y, x] == if IsStub(maze.Length1, maze.Length0, x, y) then Path else old(maze[y, x])
    requires old(Connected(maze)) && old(AllRoomsCarved(maze))
    ensures Connected(maze)
  {
    var (ex, ey) := (maze.Length1 - 1, maze.Length0 - 2);
    assert Grew(maze);
    assert old(IsPath(maze, 1, 1));
    assert old(IsPath(maze, ex - 1, ey));
    ReachKept(maze, (1, 1));
    ReachKept(maze, (ex - 1, ey));
    ReachStep(maze, (1, 1), (0, 1));
    ReachStep(maze, (ex - 1, ey), (ex, ey));
    forall j, i | IsPath(maze, i, j) ensures ReachedFromStart(maze, (i, j)) {
      if !IsStub(maze.Length1, maze.Length0, i, j) {
        assert old(IsPath(maze, i, j));
        ReachKept(maze, (i, j));
      }
    }
  }

  /** Opens the entry `maze[1][0]` and the exit `maze[height-2][width-1]`. */
  method AddStubs(maze: array2<CellKind>)
    requires Odd(maze.Length0) && Odd(maze.Length1) && maze.Length0 >= 3 && maze.Length1 >= 3
    requires Carved(maze) && AllRoomsCarved(maze) && Connected(maze)
    modifies maze
    ensures maze[1, 0] == Path && maze[maze.Length0 - 2, maze.Length1 - 1] == Path
    ensures forall y, x | 0 <= y < maze.Length0 && 0 <= x < maze.Length1 ::
      maze[y, x] == if IsStub(maze.Length1, maze.Length0, x, y) then Path else old(maze[y, x])
    ensures Shaped(maze) && AllRoomsCarved(maze) && Connected(maze)
    ensures Rooms(maze) == old(Rooms(maze)) && Connectors(maze) == old(Connectors(maze))
  {
    maze[1, 0] := Path;
    maze[maze.Length0 - 2, maze.Length1 - 1] := Path;
    StubsKeepCounts(maze);
    StubsKeepConnected(maze);
  }

  /** A fresh `height` by `width` grid of walls. */
  method AllWalls(w: nat, h: nat) returns (maze: array2<CellKind>)
    ensures fresh(maze) && maze.Length0 == h && maze.Length1 == w
    ensures forall y, x | 0 <= y < h && 0 <= x < w :: maze[y, x] == Wall
  {
    maze := new CellKind[h, w]((_, _) => Wall);
  }

  /**
   * `generateMaze(width, height)`: rounds both dimensions up to odd, fills the
   * grid with wall, carves from room (1, 1), then opens the entry (0, 1) and
   * the exit (width-1, height-2). The source indexes `maze[1][1]`, so it needs
   * both rounded dimensions to be at least 3.
   */
  method GenerateMaze(width: int, height: int, shuffle: (int, int) -> seq<Dir>)
    returns (maze: array2<CellKind>)
    requires width >= 2 && height >= 2
    requires forall a, b :: IsShuffle(shuffle(a, b))
    ensures fresh(maze)
    ensures maze.Length1 == RoundUpToOdd(width) && maze.Length0 == RoundUpToOdd(height)
    ensures maze[1, 1] == Path && maze[1, 0] == Path && maze[maze.Length0 - 2, maze.Length1 - 1] == Path
    ensures Shaped(maze) && AllRoomsCarved(maze) && Connected(maze)
    ensures |Connectors(maze)| + 1 == |Rooms(maze)|
  {
    var w, h := width, height;
    if w % 2 == 0 { w := w + 1; }
    if h % 2 == 0 { h := h + 1; }
    maze := AllWalls(w, h);
    maze[1, 1] := Path;
    StartIsCarved(maze);
    Carve(maze, 1, 1, shuffle, {});
    assert IsPath(maze, 1, 1);
    CompletedCarveReachesAllRooms(maze);
    AddStubs(maze);
  }
}
