/**
 * The route the game draws once the entry and the exit are connected:
 * a breadth-first search over the cells of the entry's group, followed
 * back from the exit through a table of predecessors.
 */
module Paths {
  import opened Wrappers
  import opened Cells
  import opened Grid
  import Sets
  import opened Seqs

  /** Positions holding a cell whose group is `gid`. */
  ghost function Open(a: array2<MazeCell>, gid: Option<int>): set<Pos>
    reads a, CellsOf(a)
  {
    set y, x | 0 <= y < a.Length0 && 0 <= x < a.Length1 && a[y, x].groupId == gid :: (x, y)
  }

  lemma OpenMember(a: array2<MazeCell>, gid: Option<int>, p: Pos)
    ensures p in Open(a, gid) <==> 0 <= p.1 < a.Length0 && 0 <= p.0 < a.Length1 && a[p.1, p.0].groupId == gid
  {
    if 0 <= p.1 < a.Length0 && 0 <= p.0 < a.Length1 && a[p.1, p.0].groupId == gid {
      assert (p.0, p.1) == p;
    }
  }

  /** `Open` spelt out position by position. */
  lemma OpenClassifies(a: array2<MazeCell>, gid: Option<int>)
    ensures var open := Open(a, gid);
            (forall p | p in open :: 0 <= p.1 < a.Length0 && 0 <= p.0 < a.Length1) &&
             (forall y, x | 0 <= y < a.Length0 && 0 <= x < a.Length1 :: (x, y) in open <==> a[y, x].groupId == gid)
  {
    var open := Open(a, gid);
    forall y, x | 0 <= y < a.Length0 && 0 <= x < a.Length1 ensures (x, y) in open <==> a[y, x].groupId == gid
    {
      OpenMember(a, gid, (x, y));
    }
  }

  /** A non-empty sequence of positions in `open`, each next to the one before. */
  predicate IsWalk(open: set<Pos>, w: seq<Pos>)
  {
    |w| >= 1 &&
    (forall i | 0 <= i < |w| :: w[i] in open) &&
    (forall i | 0 <= i < |w| - 1 :: Adjacent(w[i], w[i + 1]))
  }

  ghost predicate Reachable(open: set<Pos>, s: Pos, e: Pos)
  {
    exists w :: IsWalk(open, w) && w[0] == s && w[|w| - 1] == e
  }

  /** `(x, y)` comes after `(x', y')` when the grid is read row by row. */
  predicate Later(p: Pos, q: Pos)
  {
    p.1 > q.1 || (p.1 == q.1 && p.0 > q.0)
  }

  /** `p` is the last position, read row by row, holding `c`. */
  ghost predicate LastHolding(a: array2<MazeCell>, c: MazeCell, p: Pos)
    reads a
  {
    0 <= p.1 < a.Length0 && 0 <= p.0 < a.Length1 && a[p.1, p.0] == c &&
    forall y, x | 0 <= y < a.Length0 && 0 <= x < a.Length1 && Later((x, y), p) :: a[y, x] != c
  }

  /** Where `c` is on the grid: its last position, read row by row, or `None`. */
  ghost predicate Located(a: array2<MazeCell>, c: MazeCell, r: Option<Pos>)
    reads a
  {
    match r
    case None => forall y, x | 0 <= y < a.Length0 && 0 <= x < a.Length1 :: a[y, x] != c
    case Some(p) => LastHolding(a, c, p)
  }

  // ---- the search, as facts about its ghost state ----

  /**
   * Every neighbour in `open` of a finished position `x` has been reached,
   * at most one step further from the start than `x`.
   */
  ghost predicate Closed(open: set<Pos>, visited: set<Pos>, finished: set<Pos>, d: map<Pos, nat>)
  {
    finished <= visited && visited <= d.Keys &&
    forall x, n | x in finished && n in open && Adjacent(x, n) :: n in visited && d[n] <= d[x] + 1
  }

  /**
   * A walk from the start leaves the finished positions somewhere: at a
   * reached position no further than its index along the walk, which is
   * either unfinished or the walk's last position.
   */
  lemma {:induction false} WalkMeetsFrontier(open: set<Pos>, visited: set<Pos>, finished: set<Pos>,
                                           d: map<Pos, nat>, s: Pos, w: seq<Pos>)
    requires Closed(open, visited, finished, d) && s in visited && d[s] == 0
    requires IsWalk(open, w) && w[0] == s
    ensures exists i :: 0 <= i < |w| && w[i] in visited && d[w[i]] <= i && (w[i] !in finished || i == |w| - 1)
  {
    if |w| > 1 {
      var v := w[..|w| - 1];
      assert IsWalk(open, v);
      WalkMeetsFrontier(open, visited, finished, d, s, v);
      var i :| 0 <= i < |v| && v[i] in visited && d[v[i]] <= i && (v[i] !in finished || i == |v| - 1);
      if v[i] in finished {
        assert Adjacent(w[i], w[i + 1]);
        assert w[|w| - 1] in visited && d[w[|w| - 1]] <= |w| - 1;
      } else {
        assert w[i] == v[i];
      }
    }
  }

  /** What the search has learnt about the exit `e` once it stops. */
  ghost predicate Settled(open: set<Pos>, visited: set<Pos>, d: map<Pos, nat>, s: Pos, e: Pos)
  {
    visited <= d.Keys &&
    (e in visited ==> forall w | IsWalk(open, w) && w[0] == s && w[|w| - 1] == e :: d[e] <= |w| - 1) &&
    (e !in visited ==> !Reachable(open, s, e))
  }

  /** The search ran out of positions: everything reached is finished. */
  lemma Exhausted(open: set<Pos>, visited: set<Pos>, d: map<Pos, nat>, s: Pos, e: Pos)
    requires Closed(open, visited, visited, d) && s in visited && d[s] == 0
    ensures Settled(open, visited, d, s, e)
  {
    forall w | IsWalk(open, w) && w[0] == s && w[|w| - 1] == e
      ensures e in visited && d[e] <= |w| - 1
    {
      WalkMeetsFrontier(open, visited, visited, d, s, w);
    }
  }

  /**
   * The search took the exit `e` off the front of `queue`, whose distances
   * are all at least the front's: no walk to `e` is shorter than `d[e]`.
   */
  lemma ReachedAtFront(open: set<Pos>, visited: set<Pos>, finished: set<Pos>, d: map<Pos, nat>,
                       queue: seq<Pos>, s: Pos, e: Pos)
    requires Closed(open, visited, finished, d) && s in visited && d[s] == 0
    requires |queue| > 0 && queue[0] == e && e in visited
    requires forall v | v in visited :: v in finished || v in queue
    requires forall i | 0 <= i < |queue| :: queue[i] in visited && d[queue[0]] <= d[queue[i]]
    ensures Settled(open, visited, d, s, e)
  {
    forall w | IsWalk(open, w) && w[0] == s && w[|w| - 1] == e
      ensures d[e] <= |w| - 1
    {
      WalkMeetsFrontier(open, visited, finished, d, s, w);
      var i :| 0 <= i < |w| && w[i] in visited && d[w[i]] <= i && (w[i] !in finished || i == |w| - 1);
      if w[i] !in finished {
        var k :| 0 <= k < |queue| && queue[k] == w[i];
      }
    }
  }

  // ---- the predecessor table ----

  /**
   * Every reached position other than the start has a predecessor that
   * was reached one step earlier and lies next to it.
   */
  ghost predicate Linked(prev: array2<Option<Pos>>, d: map<Pos, nat>, reached: set<Pos>, s: Pos)
    reads prev
  {
    s in reached && reached <= d.Keys && d[s] == 0 &&
    (forall v | v in reached :: 0 <= v.1 < prev.Length0 && 0 <= v.0 < prev.Length1) &&
    forall v | v in reached && v != s ::
      prev[v.1, v.0].Some? && prev[v.1, v.0].value in reached &&
      Adjacent(prev[v.1, v.0].value, v) && d[prev[v.1, v.0].value] + 1 == d[v]
  }

  /** The positions met by following predecessors back from `v` to the start, start first. */
  ghost function Chain(prev: array2<Option<Pos>>, d: map<Pos, nat>, reached: set<Pos>, s: Pos, v: Pos): (c: seq<Pos>)
    requires Linked(prev, d, reached, s) && v in reached
    reads prev
    ensures IsWalk(reached, c) && c[0] == s && c[|c| - 1] == v && |c| == d[v] + 1
    ensures forall i | 1 <= i < |c| :: c[i] != s && prev[c[i].1, c[i].0] == Some(c[i - 1])
    decreases d[v]
  {
    if v == s then [s]
    else
      var u := prev[v.1, v.0].value;
      var c := Chain(prev, d, reached, s, u);
      c + [v]
  }

  /** The four steps the search tries from each position, in order. */
  const Steps: seq<Pos> := [(0, 1), (1, 0), (0, -1), (-1, 0)]

  function Step(u: Pos, k: int): Pos
    requires 0 <= k < 4
  {
    (u.0 + Steps[k].0, u.1 + Steps[k].1)
  }

  lemma StepIsAdjacent(u: Pos, k: int)
    requires 0 <= k < 4
    ensures Adjacent(u, Step(u, k))
  {
  }

  lemma AdjacentIsStep(u: Pos, n: Pos)
    requires Adjacent(u, n)
    ensures exists k :: 0 <= k < 4 && n == Step(u, k)
  {
    if n == Step(u, 0) {} else if n == Step(u, 1) {} else if n == Step(u, 2) {} else { assert n == Step(u, 3); }
  }

  // ---- the search itself ----

  /** The `visited` and `prev` tables agree with the set of reached positions, all of them in `open`. */
  ghost predicate Marks(visited: array2<bool>, prev: array2<Option<Pos>>, reached: set<Pos>, open: set<Pos>)
    reads visited, prev
  {
    prev.Length0 == visited.Length0 && prev.Length1 == visited.Length1 &&
    reached <= open &&
    (forall v | v in reached :: 0 <= v.1 < visited.Length0 && 0 <= v.0 < visited.Length1) &&
    (forall y, x | 0 <= y < visited.Length0 && 0 <= x < visited.Length1 :: visited[y, x] <==> (x, y) in reached) &&
    (forall y, x | 0 <= y < visited.Length0 && 0 <= x < visited.Length1 && (x, y) !in reached :: prev[y, x].None?)
  }

  /**
   * The queue holds reached, unfinished positions, each once, in order of
   * distance, all within one step of distance `base`; finished positions
   * are no further than `base`, and every reached position is finished,
   * queued, or `extra`.
   */
  ghost predicate Queued(queue: seq<Pos>, reached: set<Pos>, finished: set<Pos>, d: map<Pos, nat>,
                         base: int, extra: set<Pos>)
  {
    finished <= reached && reached <= d.Keys &&
    (forall v | v in reached :: v in finished || v in queue || v in extra) &&
    (forall i | 0 <= i < |queue| :: queue[i] in reached && queue[i] !in finished && queue[i] !in extra) &&
    (forall i, j | 0 <= i < j < |queue| :: queue[i] != queue[j] && d[queue[i]] <= d[queue[j]]) &&
    (forall i | 0 <= i < |queue| :: base <= d[queue[i]] <= base + 1) &&
    (forall x | x in finished :: d[x] <= base)
  }

  /** A reached position is at most one step further than the position being explored. */
  lemma WithinOneStep(queue: seq<Pos>, reached: set<Pos>, finished: set<Pos>, d: map<Pos, nat>, u: Pos, n: Pos)
    requires u in reached && n in reached && reached <= d.Keys && Queued(queue, reached, finished, d, d[u], {u})
    ensures d[n] <= d[u] + 1
  {
    if n !in finished && n != u {
      var i :| 0 <= i < |queue| && queue[i] == n;
    }
  }

  /** The first `k` steps from `u` that stay in `open` lead to reached positions at most one step further. */
  ghost predicate Tried(open: set<Pos>, reached: set<Pos>, d: map<Pos, nat>, u: Pos, k: int)
    requires 0 <= k <= 4
  {
    reached <= d.Keys && u in d &&
    forall m | 0 <= m < k :: Step(u, m) in open ==> Step(u, m) in reached && d[Step(u, m)] <= d[u] + 1
  }

  lemma TriedOneMore(open: set<Pos>, reached: set<Pos>, d: map<Pos, nat>, reached': set<Pos>, d': map<Pos, nat>,
                     u: Pos, k: int)
    requires 0 <= k < 4 && Tried(open, reached, d, u, k)
    requires reached <= reached' && reached' <= d'.Keys && forall v | v in reached :: d'[v] == d[v]
    requires u in reached
    requires Step(u, k) in open ==> Step(u, k) in reached' && d'[Step(u, k)] <= d[u] + 1
    ensures Tried(open, reached', d', u, k + 1)
  {
  }

  /** Marks `n`, next to the reached position `u`, as reached from `u`. */
  method Visit(visited: array2<bool>, prev: array2<Option<Pos>>, u: Pos, n: Pos,
               ghost reached: set<Pos>, ghost open: set<Pos>, ghost d: map<Pos, nat>, ghost s: Pos)
    requires Marks(visited, prev, reached, open) && Linked(prev, d, reached, s)
    requires u in reached && n in open && n !in reached && Adjacent(u, n)
    requires 0 <= n.1 < visited.Length0 && 0 <= n.0 < visited.Length1
    modifies visited, prev
    ensures Marks(visited, prev, reached + {n}, open) && Linked(prev, d[n := d[u] + 1], reached + {n}, s)
  {
    visited[n.1, n.0] := true;
    prev[n.1, n.0] := Some(u);
  }

  /** Queueing a newly reached neighbour `n` of `u` keeps the search's facts. */
  lemma Enqueued(open: set<Pos>, queue: seq<Pos>, reached: set<Pos>, finished: set<Pos>,
                 d: map<Pos, nat>, u: Pos, n: Pos)
    requires u in reached && u !in finished && n !in reached
    requires Closed(open, reached, finished, d) && Queued(queue, reached, finished, d, d[u], {u})
    ensures Closed(open, reached + {n}, finished, d[n := d[u] + 1])
    ensures Queued(queue + [n], reached + {n}, finished, d[n := d[u] + 1], d[u], {u})
  {
    var d' := d[n := d[u] + 1];
    var q' := queue + [n];
    forall i | 0 <= i < |q'| ensures q'[i] in reached + {n} && d'[q'[i]] <= d[u] + 1
    {
      if i < |queue| { assert q'[i] == queue[i]; }
    }
  }

  /**
   * Tries the four steps from `u`, just taken off the queue: each
   * position of `open` not yet visited is marked, given `u` as its
   * predecessor and queued.
   */
  method Explore(a: array2<MazeCell>, gid: Option<int>, visited: array2<bool>, prev: array2<Option<Pos>>,
                 u: Pos, queue: seq<Pos>, ghost open: set<Pos>, ghost reached: set<Pos>,
                 ghost finished: set<Pos>, ghost d: map<Pos, nat>, ghost s: Pos)
    returns (queue': seq<Pos>, ghost reached': set<Pos>, ghost d': map<Pos, nat>)
    requires visited.Length0 == a.Length0 && visited.Length1 == a.Length1
    requires (forall p | p in open :: 0 <= p.1 < a.Length0 && 0 <= p.0 < a.Length1) &&
    (forall y, x | 0 <= y < a.Length0 && 0 <= x < a.Length1 :: (x, y) in open <==> a[y, x].groupId == gid)
    requires Marks(visited, prev, reached, open) && Linked(prev, d, reached, s) && Closed(open, reached, finished, d)
    requires u in reached && u !in finished
    requires Queued(queue, reached, finished, d, d[u], {u})
    modifies visited, prev
    ensures forall y, x | 0 <= y < a.Length0 && 0 <= x < a.Length1 :: (x, y) in open <==> a[y, x].groupId == gid
    ensures Marks(visited, prev, reached', open) && Linked(prev, d', reached', s)
    ensures Closed(open, reached', finished + {u}, d')
    ensures Queued(queue', reached', finished + {u}, d', d[u], {})
  {
    queue', reached', d' := queue, reached, d;
    for k := 0 to 4
      invariant u in d' && d'[u] == d[u] && Exploring(visited, prev, queue', open, reached', finished, d', s, u, k)
    {
      queue', reached', d' := TryStep(a, gid, visited, prev, u, k, queue', open, reached', finished, d', s);
    }
    Finished(open, queue', reached', finished, d', u);
  }

  /** Once all four steps from `u` are tried, `u` counts as finished. */
  lemma Finished(open: set<Pos>, queue: seq<Pos>, reached: set<Pos>, finished: set<Pos>, d: map<Pos, nat>, u: Pos)
    requires u in reached && Closed(open, reached, finished, d)
    requires Queued(queue, reached, finished, d, d[u], {u}) && Tried(open, reached, d, u, 4)
    ensures Closed(open, reached, finished + {u}, d) && Queued(queue, reached, finished + {u}, d, d[u], {})
  {
    forall n | n in open && Adjacent(u, n) ensures n in reached && d[n] <= d[u] + 1
    {
      AdjacentIsStep(u, n);
      var k :| 0 <= k < 4 && n == Step(u, k);
    }
  }

  /** The facts kept while the steps from `u` are tried, the first `k` of them done. */
  ghost predicate Exploring(visited: array2<bool>, prev: array2<Option<Pos>>, queue: seq<Pos>, open: set<Pos>,
                           reached: set<Pos>, finished: set<Pos>, d: map<Pos, nat>, s: Pos, u: Pos, k: int)
    requires 0 <= k <= 4
    reads visited, prev
  {
    Marks(visited, prev, reached, open) && Linked(prev, d, reached, s) && Closed(open, reached, finished, d) &&
    u in reached && u !in finished &&
    Queued(queue, reached, finished, d, d[u], {u}) && Tried(open, reached, d, u, k)
  }

  /** Tries the `k`-th step from `u`. */
  method TryStep(a: array2<MazeCell>, gid: Option<int>, visited: array2<bool>, prev: array2<Option<Pos>>,
                 u: Pos, k: int, queue: seq<Pos>, ghost open: set<Pos>, ghost reached: set<Pos>,
                 ghost finished: set<Pos>, ghost d: map<Pos, nat>, ghost s: Pos)
    returns (queue': seq<Pos>, ghost reached': set<Pos>, ghost d': map<Pos, nat>)
    requires visited.Length0 == a.Length0 && visited.Length1 == a.Length1 && 0 <= k < 4
    requires (forall p | p in open :: 0 <= p.1 < a.Length0 && 0 <= p.0 < a.Length1) &&
    (forall y, x | 0 <= y < a.Length0 && 0 <= x < a.Length1 :: (x, y) in open <==> a[y, x].groupId == gid)
    requires Exploring(visited, prev, queue, open, reached, finished, d, s, u, k)
    modifies visited, prev
    ensures forall y, x | 0 <= y < a.Length0 && 0 <= x < a.Length1 :: (x, y) in open <==> a[y, x].groupId == gid
    ensures u in d' && d'[u] == d[u] && Exploring(visited, prev, queue', open, reached', finished, d', s, u, k + 1)
  {
    queue', reached', d' := queue, reached, d;
    var (nx, ny) := Step(u, k);
    if 0 <= nx < a.Length1 && 0 <= ny < a.Length0 && !visited[ny, nx] && a[ny, nx].groupId == gid {
      StepIsAdjacent(u, k);
      Visit(visited, prev, u, (nx, ny), reached, open, d, s);
      Enqueued(open, queue, reached, finished, d, u, (nx, ny));
      queue' := queue + [(nx, ny)];
      reached' := reached + {(nx, ny)};
      d' := d[(nx, ny) := d[u] + 1];
    } else if (nx, ny) in open {
      assert (nx, ny) in reached;
      WithinOneStep(queue, reached, finished, d, u, (nx, ny));
    }
    TriedOneMore(open, reached, d, reached', d', u, k);
  }

  /** Taking the front off the queue leaves it waiting to be explored. */
  lemma Dequeued(queue: seq<Pos>, reached: set<Pos>, finished: set<Pos>, d: map<Pos, nat>)
    requires |queue| > 0 && queue[0] in d && Queued(queue, reached, finished, d, d[queue[0]], {})
    ensures Queued(queue[1..], reached, finished, d, d[queue[0]], {queue[0]})
  {
    forall v | v in reached ensures v in finished || v in queue[1..] || v == queue[0]
    {
      if v !in finished {
        var i :| 0 <= i < |queue| && queue[i] == v;
        if i > 0 { assert queue[1..][i - 1] == v; }
      }
    }
  }

  /** After exploring, the distances in the queue are measured from its new front. */
  lemma Rebased(queue: seq<Pos>, reached: set<Pos>, finished: set<Pos>, d: map<Pos, nat>, base: int)
    requires |queue| > 0 && Queued(queue, reached, finished, d, base, {})
    ensures queue[0] in d && Queued(queue, reached, finished, d, d[queue[0]], {})
  {
  }

  lemma WalkInLarger(small: set<Pos>, large: set<Pos>, w: seq<Pos>)
    requires IsWalk(small, w) && small <= large
    ensures IsWalk(large, w)
  {
  }

  /** `w` is a walk in `open` from `s` to `e` and no walk between them is shorter. */
  ghost predicate ShortestWalk(open: set<Pos>, w: seq<Pos>, s: Pos, e: Pos)
  {
    IsWalk(open, w) && w[0] == s && w[|w| - 1] == e &&
    forall v | IsWalk(open, v) && v[0] == s && v[|v| - 1] == e :: |w| <= |v|
  }

  /** When the search reached `e`, the chain of predecessors is a shortest walk to it. */
  lemma FoundShortest(open: set<Pos>, prev: array2<Option<Pos>>, reached: set<Pos>, d: map<Pos, nat>, s: Pos, e: Pos)
    requires Linked(prev, d, reached, s) && reached <= open && Settled(open, reached, d, s, e) && e in reached
    ensures Reachable(open, s, e) && ShortestWalk(open, Chain(prev, d, reached, s, e), s, e)
  {
    WalkInLarger(reached, open, Chain(prev, d, reached, s, e));
  }

  /** `path` lists the cells at the positions of `w`, in order. */
  ghost predicate Along(a: array2<MazeCell>, path: seq<MazeCell>, w: seq<Pos>)
    reads a
  {
    |path| == |w| &&
    forall i | 0 <= i < |w| :: 0 <= w[i].1 < a.Length0 && 0 <= w[i].0 < a.Length1 && path[i] == a[w[i].1, w[i].0]
  }

  /** `p` is read before `(x, y)` in a row-by-row scan. */
  predicate Before(p: Pos, x: int, y: int)
  {
    p.1 < y || (p.1 == y && p.0 < x)
  }

  /** `r` is where a row-by-row scan stopped at `(x, y)` last saw `c`. */
  ghost predicate ScanFound(a: array2<MazeCell>, c: MazeCell, r: Option<Pos>, x: int, y: int)
    reads a
  {
    match r
    case None =>
      forall y', x' | 0 <= y' < a.Length0 && 0 <= x' < a.Length1 && Before((x', y'), x, y) :: a[y', x'] != c
    case Some(p) =>
      0 <= p.1 < a.Length0 && 0 <= p.0 < a.Length1 && Before(p, x, y) && a[p.1, p.0] == c &&
      forall y', x' | 0 <= y' < a.Length0 && 0 <= x' < a.Length1 && Before((x', y'), x, y) && Later((x', y'), p) ::
        a[y', x'] != c
  }

  /**
   * The last position holding `c` that a row-by-row scan has read when
   * it stands at `(x, y)`, or `None`.
   */
  ghost function Scan(a: array2<MazeCell>, c: MazeCell, x: int, y: int): Option<Pos>
    requires (0 <= y < a.Length0 && 0 <= x <= a.Length1) || (y == a.Length0 && x == 0)
    reads a
    decreases y, x
  {
    if x == 0 then
      if y == 0 then None else Scan(a, c, a.Length1, y - 1)
    else if a[y, x - 1] == c then Some((x - 1, y))
    else Scan(a, c, x - 1, y)
  }

  lemma {:induction false} ScanFinds(a: array2<MazeCell>, c: MazeCell, x: int, y: int)
    requires 0 <= y < a.Length0 && 0 <= x <= a.Length1
    ensures ScanFound(a, c, Scan(a, c, x, y), x, y)
    decreases y, x
  {
    if x == 0 {
      if y > 0 {
        ScanFinds(a, c, a.Length1, y - 1);
      }
    } else if a[y, x - 1] != c {
      ScanFinds(a, c, x - 1, y);
    }
  }

  /** A scan of every row finds where `c` is. */
  lemma ScanLocates(a: array2<MazeCell>, c: MazeCell)
    ensures Located(a, c, Scan(a, c, 0, a.Length0))
  {
    if a.Length0 > 0 {
      ScanFinds(a, c, a.Length1, a.Length0 - 1);
    }
  }

  /** The positions of `entryCell` and `exitCell`: the last ones, read row by row. */
  method Locate(a: array2<MazeCell>, entryCell: MazeCell, exitCell: MazeCell)
    returns (start: Option<Pos>, end: Option<Pos>)
    ensures Located(a, entryCell, start) && Located(a, exitCell, end)
  {
    start, end := None, None;
    for y := 0 to a.Length0
      invariant start == Scan(a, entryCell, 0, y) && end == Scan(a, exitCell, 0, y)
    {
      for x := 0 to a.Length1
        invariant start == Scan(a, entryCell, x, y) && end == Scan(a, exitCell, x, y)
      {
        if a[y, x] == entryCell { start := Some((x, y)); }
        if a[y, x] == exitCell { end := Some((x, y)); }
      }
    }
    ScanLocates(a, entryCell);
    ScanLocates(a, exitCell);
  }

  /**
   * The breadth-first search from `s` over the positions of `open`,
   * stopping when `e` comes off the queue: the predecessor table it fills
   * and, as ghosts, the positions it reached and their distances.
   */
  method Search(a: array2<MazeCell>, gid: Option<int>, s: Pos, e: Pos, ghost open: set<Pos>)
    returns (prev: array2<Option<Pos>>, ghost reached: set<Pos>, ghost d: map<Pos, nat>)
    requires open == Open(a, gid) && s in open
    ensures prev.Length0 == a.Length0 && prev.Length1 == a.Length1
    ensures Linked(prev, d, reached, s) && reached <= open && Settled(open, reached, d, s, e)
    ensures forall y, x | 0 <= y < a.Length0 && 0 <= x < a.Length1 && (x, y) !in reached :: prev[y, x].None?
  {
    OpenClassifies(a, gid);
    var visited;
    visited, prev := Start(a.Length0, a.Length1, s, open);
    reached, d := Run(a, gid, visited, prev, s, e, open);
  }

  /** The rounds of the search, from a queue holding just the start `s` until `e` comes off it or it runs dry. */
  method Run(a: array2<MazeCell>, gid: Option<int>, visited: array2<bool>, prev: array2<Option<Pos>>,
             s: Pos, e: Pos, ghost open: set<Pos>)
    returns (ghost reached: set<Pos>, ghost d: map<Pos, nat>)
    requires visited.Length0 == a.Length0 && visited.Length1 == a.Length1
    requires (forall p | p in open :: 0 <= p.1 < a.Length0 && 0 <= p.0 < a.Length1) &&
    (forall y, x | 0 <= y < a.Length0 && 0 <= x < a.Length1 :: (x, y) in open <==> a[y, x].groupId == gid)
    requires Searching(visited, prev, [s], open, {s}, {}, map[s := 0], s)
    modifies visited, prev
    ensures Linked(prev, d, reached, s) && reached <= open && Settled(open, reached, d, s, e)
    ensures forall y, x | 0 <= y < prev.Length0 && 0 <= x < prev.Length1 && (x, y) !in reached :: prev[y, x].None?
  {
    var queue := [s];
    ghost var finished := {};
    reached, d := {s}, map[s := 0];
    ghost var broke := false;
    while |queue| > 0
      invariant (forall y, x | 0 <= y < a.Length0 && 0 <= x < a.Length1 :: (x, y) in open <==> a[y, x].groupId == gid)
      invariant Searching(visited, prev, queue, open, reached, finished, d, s)
      invariant |queue| == 0 && !broke ==> finished == reached
      invariant broke ==> Settled(open, reached, d, s, e)
      decreases if broke then 0 else |open - finished| + 1
    {
      var u := queue[0];
      if u == e {
        AtExit(visited, prev, queue, open, reached, finished, d, s);
        broke := true;
        break;
      }
      ghost var finished0 := finished;
      queue, reached, finished, d := Advance(a, gid, visited, prev, queue, open, reached, finished, d, s);
      Sets.CardinalityMonotone(open - finished, open - finished0, u);
    }
    if !broke {
      Exhausted(open, reached, d, s, e);
    }
    Unmarked(visited, prev, queue, open, reached, finished, d, s);
  }

  /** The facts the search keeps from one round to the next. */
  ghost predicate Searching(visited: array2<bool>, prev: array2<Option<Pos>>, queue: seq<Pos>, open: set<Pos>,
                            reached: set<Pos>, finished: set<Pos>, d: map<Pos, nat>, s: Pos)
    reads visited, prev
  {
    Marks(visited, prev, reached, open) && Linked(prev, d, reached, s) && Closed(open, reached, finished, d) &&
    (|queue| > 0 ==> queue[0] in d && Queued(queue, reached, finished, d, d[queue[0]], {}))
  }

  /** The search stops when the exit comes off the queue. */
  lemma AtExit(visited: array2<bool>, prev: array2<Option<Pos>>, queue: seq<Pos>, open: set<Pos>,
               reached: set<Pos>, finished: set<Pos>, d: map<Pos, nat>, s: Pos)
    requires |queue| > 0 && Searching(visited, prev, queue, open, reached, finished, d, s)
    ensures Settled(open, reached, d, s, queue[0])
  {
    ReachedAtFront(open, reached, finished, d, queue, s, queue[0]);
  }

  /** Positions the search never reached have no predecessor. */
  lemma Unmarked(visited: array2<bool>, prev: array2<Option<Pos>>, queue: seq<Pos>, open: set<Pos>,
                 reached: set<Pos>, finished: set<Pos>, d: map<Pos, nat>, s: Pos)
    requires Searching(visited, prev, queue, open, reached, finished, d, s)
    ensures Linked(prev, d, reached, s) && reached <= open
    ensures forall y, x | 0 <= y < prev.Length0 && 0 <= x < prev.Length1 && (x, y) !in reached :: prev[y, x].None?
  {
  }

  /** Fresh `visited` and `prev` tables, with only the start `s` visited. */
  method Start(height: nat, width: nat, s: Pos, ghost open: set<Pos>)
    returns (visited: array2<bool>, prev: array2<Option<Pos>>)
    requires 0 <= s.1 < height && 0 <= s.0 < width && s in open
    ensures fresh(visited) && fresh(prev)
    ensures visited.Length0 == height && visited.Length1 == width
    ensures Searching(visited, prev, [s], open, {s}, {}, map[s := 0], s)
  {
    visited := new bool[height, width]((_, _) => false);
    prev := new Option<Pos>[height, width]((_, _) => None);
    visited[s.1, s.0] := true;
  }

  /** One round of the search: takes the front `u` off the queue and explores from it. */
  method Advance(a: array2<MazeCell>, gid: Option<int>, visited: array2<bool>, prev: array2<Option<Pos>>,
                 queue: seq<Pos>, ghost open: set<Pos>, ghost reached: set<Pos>, ghost finished: set<Pos>,
                 ghost d: map<Pos, nat>, ghost s: Pos)
    returns (queue': seq<Pos>, ghost reached': set<Pos>, ghost finished': set<Pos>, ghost d': map<Pos, nat>)
    requires visited.Length0 == a.Length0 && visited.Length1 == a.Length1
    requires (forall p | p in open :: 0 <= p.1 < a.Length0 && 0 <= p.0 < a.Length1) &&
    (forall y, x | 0 <= y < a.Length0 && 0 <= x < a.Length1 :: (x, y) in open <==> a[y, x].groupId == gid)
    requires |queue| > 0 && Searching(visited, prev, queue, open, reached, finished, d, s)
    modifies visited, prev
    ensures forall y, x | 0 <= y < a.Length0 && 0 <= x < a.Length1 :: (x, y) in open <==> a[y, x].groupId == gid
    ensures Searching(visited, prev, queue', open, reached', finished', d', s)
    ensures |queue'| == 0 ==> finished' == reached'
    ensures queue[0] in open && queue[0] !in finished && finished' == finished + {queue[0]}
  {
    var u := queue[0];
    Dequeued(queue, reached, finished, d);
    ghost var du := d[u];
    queue', reached', d' := Explore(a, gid, visited, prev, u, queue[1..], open, reached, finished, d, s);
    finished' := finished + {u};
    if |queue'| > 0 {
      Rebased(queue', reached', finished', d', du);
    }
  }

  /**
   * Follows the predecessors back from `e`: the cells along the chain
   * that leads to it from `s`, or just `e`'s cell when it has no
   * predecessor and is not `s`.
   */
  method Reconstruct(a: array2<MazeCell>, prev: array2<Option<Pos>>, s: Pos, e: Pos,
                     ghost reached: set<Pos>, ghost d: map<Pos, nat>)
    returns (path: seq<MazeCell>, ghost route: seq<Pos>)
    requires prev.Length0 == a.Length0 && prev.Length1 == a.Length1
    requires Linked(prev, d, reached, s) && 0 <= e.1 < a.Length0 && 0 <= e.0 < a.Length1
    requires e !in reached ==> prev[e.1, e.0].None?
    ensures e in reached ==> route == Chain(prev, d, reached, s, e) && Along(a, path, route)
    ensures e !in reached ==> path == [a[e.1, e.0]]
  {
    var rev: seq<MazeCell> := [];
    var curr: Option<Pos> := Some(e);
    route := if e in reached then Chain(prev, d, reached, s, e) else [e];
    ghost var j := |route| - 1;
    while curr.Some? && curr.value != s
      invariant 0 <= j < |route|
      invariant e in reached ==>
        curr == Some(route[j]) && |rev| == |route| - 1 - j &&
        forall i | 0 <= i < |rev| :: rev[i] == a[route[|route| - 1 - i].1, route[|route| - 1 - i].0]
      invariant e !in reached ==>
        route == [e] && j == 0 && (curr.Some? ==> curr == Some(e) && rev == []) &&
        (curr.None? ==> rev == [a[e.1, e.0]])
      decreases j + (if curr.Some? then 1 else 0)
    {
      var (x, y) := curr.value;
      rev := rev + [a[y, x]];
      curr := prev[y, x];
      if e in reached {
        j := j - 1;
      }
    }
    if curr.Some? {
      rev := rev + [a[s.1, s.0]];
    }
    path := Reverse(rev);
  }

  /**
   * What the path between the cells at `s` and `e` is: when `e` can be
   * reached from `s` through cells of `s`'s group, the cells along a
   * shortest walk between them, `entryCell` first and `exitCell` last;
   * otherwise just `exitCell`.
   */
  ghost predicate Routed(a: array2<MazeCell>, entryCell: MazeCell, exitCell: MazeCell, s: Pos, e: Pos,
                         path: seq<MazeCell>, route: seq<Pos>)
    requires 0 <= s.1 < a.Length0 && 0 <= s.0 < a.Length1
    reads a, CellsOf(a)
  {
    var open := Open(a, a[s.1, s.0].groupId);
    (Reachable(open, s, e) ==>
       ShortestWalk(open, route, s, e) && Along(a, path, route) &&
       path[0] == entryCell && path[|path| - 1] == exitCell) &&
    (!Reachable(open, s, e) ==> path == [exitCell])
  }

  /** The search and the walk back from the exit give the path `Routed` describes. */
  lemma Answered(a: array2<MazeCell>, entryCell: MazeCell, exitCell: MazeCell, s: Pos, e: Pos,
                 path: seq<MazeCell>, route: seq<Pos>,
                 open: set<Pos>, prev: array2<Option<Pos>>, reached: set<Pos>, d: map<Pos, nat>)
    requires LastHolding(a, entryCell, s) && LastHolding(a, exitCell, e)
    requires open == Open(a, a[s.1, s.0].groupId)
    requires Linked(prev, d, reached, s) && reached <= open && Settled(open, reached, d, s, e)
    requires e in reached ==> route == Chain(prev, d, reached, s, e) && Along(a, path, route)
    requires e !in reached ==> path == [a[e.1, e.0]]
    ensures Routed(a, entryCell, exitCell, s, e, path, route)
  {
    if e in reached {
      FoundShortest(open, prev, reached, d, s, e);
    }
  }

  /**
   * The cells of a shortest route, entry first, through cells of the
   * entry's group; `[exitCell]` when the exit cannot be reached that way,
   * and nothing when either cell is not on the grid.
   */
  method FindShortestPath(a: array2<MazeCell>, entryCell: MazeCell, exitCell: MazeCell)
    returns (path: seq<MazeCell>, ghost start: Option<Pos>, ghost end: Option<Pos>, ghost route: seq<Pos>)
    requires a.Length0 >= 1
    ensures Located(a, entryCell, start) && Located(a, exitCell, end)
    ensures start.None? || end.None? ==> path == []
    ensures start.Some? && end.Some? ==> Routed(a, entryCell, exitCell, start.value, end.value, path, route)
    ensures path != [] ==> path[|path| - 1] == exitCell
  {
    var found, foundEnd := Locate(a, entryCell, exitCell);
    start, end, route := found, foundEnd, [];
    if found.None? || foundEnd.None? {
      return [], start, end, route;
    }
    path, route := Route(a, entryCell, exitCell, found.value, foundEnd.value);
  }

  /** Searches from `s`, where `entryCell` is, and walks back from `e`, where `exitCell` is. */
  method Route(a: array2<MazeCell>, entryCell: MazeCell, exitCell: MazeCell, s: Pos, e: Pos)
    returns (path: seq<MazeCell>, ghost route: seq<Pos>)
    requires LastHolding(a, entryCell, s) && LastHolding(a, exitCell, e)
    ensures Routed(a, entryCell, exitCell, s, e, path, route)
    ensures |path| >= 1 && path[|path| - 1] == exitCell
  {
    var gid := a[s.1, s.0].groupId;
    ghost var open := Open(a, gid);
    OpenMember(a, gid, s);
    var prev, reached, d := Search(a, gid, s, e, open);
    assert Open(a, gid) == open;
    path, route := Reconstruct(a, prev, s, e, reached, d);
    Answered(a, entryCell, exitCell, s, e, path, route, open, prev, reached, d);
  }

  /** When the entry and the exit are the same cell, the path is that one cell. */
  lemma SameCellIsSingleton(a: array2<MazeCell>, entryCell: MazeCell, exitCell: MazeCell, s: Pos,
                            path: seq<MazeCell>, route: seq<Pos>)
    requires 0 <= s.1 < a.Length0 && 0 <= s.0 < a.Length1
    requires Routed(a, entryCell, exitCell, s, s, path, route)
    ensures path == [entryCell]
  {
    var open := Open(a, a[s.1, s.0].groupId);
    OpenMember(a, a[s.1, s.0].groupId, s);
    assert IsWalk(open, [s]);
    assert Reachable(open, s, s);
    assert |route| <= |[s]|;
  }
}
