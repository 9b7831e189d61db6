/**
 * Colouring the maze into groups. Clicking an uncoloured cell either
 * starts a new group, joins the one group next to it, or merges every
 * group next to it into the first one found; when the entry and the exit
 * cell end up in the same group the game reports the connection.
 *
 * The first half states a click on a value (`Tracker`); the class
 * `MazeManager` performs it on the cells in place and is proved to
 * produce exactly that value.
 */
module Grouping {
  import opened Wrappers
  import opened Cells
  import opened Grid
  import opened Seqs

  /** Number of palettes new groups cycle through. */
  const PaletteCount := 9

  /** The four positions next to `(x, y)`, in the order they are examined: left, right, up, down. */
  function Around(x: int, y: int): seq<Pos>
  {
    [(x - 1, y), (x + 1, y), (x, y - 1), (x, y + 1)]
  }

  /** The group ids found at `ps`, in order, skipping positions off the grid or uncoloured. */
  function GroupsAt(ids: map<Pos, Option<int>>, ps: seq<Pos>): (r: seq<int>)
    ensures forall g :: g in r <==> exists k :: 0 <= k < |ps| && ps[k] in ids && ids[ps[k]] == Some(g)
    ensures |r| <= |ps|
  {
    if |ps| == 0 then []
    else
      var rest := GroupsAt(ids, ps[1..]);
      assert forall k :: 0 < k < |ps| ==> ps[k] == ps[1..][k - 1];
      if ps[0] in ids && ids[ps[0]].Some? then [ids[ps[0]].value] + rest else rest
  }

  /** Ids of the coloured neighbours of `(x, y)`, with repeats. */
  function NeighbourGroups(ids: map<Pos, Option<int>>, x: int, y: int): seq<int>
  {
    GroupsAt(ids, Around(x, y))
  }

  /**
   * The elements of `s` without repeats, each kept where it first occurs
   * (what building a set from a list and reading it back gives).
   */
  function Dedup(s: seq<int>): (r: seq<int>)
    ensures Distinct(r)
    ensures forall g :: g in r <==> g in s
    ensures |s| > 0 ==> |r| > 0 && r[0] == s[0]
    ensures |r| <= |s|
  {
    if |s| == 0 then []
    else
      var prefix := Dedup(s[..|s| - 1]);
      assert forall g :: g in s <==> g in s[..|s| - 1] || g == s[|s| - 1];
      if s[|s| - 1] in prefix then prefix else prefix + [s[|s| - 1]]
  }

  /** The value of a group tracker: everything a click reads or writes. */
  datatype Tracker = Tracker(
    w: int, h: int,
    counter: int,
    groupShades: map<int, seq<int>>,
    ids: map<Pos, Option<int>>,
    shades: map<Pos, seq<int>>)

  /** Ids in use anywhere on the grid. */
  function IdsOnGrid(ids: map<Pos, Option<int>>): set<int>
  {
    set p | p in ids && ids[p].Some? :: ids[p].value
  }

  /** Two neighbouring coloured cells always share a group. */
  predicate NeighboursAgree(ids: map<Pos, Option<int>>)
  {
    forall p, q | p in ids && q in ids && Adjacent(p, q) && ids[p].Some? && ids[q].Some? :: ids[p] == ids[q]
  }

  /** What holds of the tracker between clicks. */
  predicate Inv(t: Tracker)
  {
    t.w >= 1 && t.h >= 2 &&
    t.ids.Keys == Coords(t.w, t.h) && t.shades.Keys == Coords(t.w, t.h) &&
    t.counter >= 1 &&
    (forall p | p in t.ids && t.ids[p].Some? :: 1 <= t.ids[p].value < t.counter) &&
    t.groupShades.Keys == IdsOnGrid(t.ids) &&
    NeighboursAgree(t.ids)
  }

  /** Whether a coloured cell is caught by a merge into the groups `uniq` (an id of 0 never is). */
  predicate Merged(o: Option<int>, uniq: seq<int>)
  {
    o.Some? && o.value != 0 && o.value in uniq
  }

  /** Palette given to the group created when the counter reads `counter`. */
  function NextShades(palette: seq<seq<int>>, counter: int): seq<int>
    requires |palette| == PaletteCount && counter >= 1
  {
    palette[counter % PaletteCount]
  }

  /** The group of a cell with group `o` after the groups `uniq` are merged into `g`. */
  function RelabelledId(o: Option<int>, uniq: seq<int>, g: int): Option<int>
  {
    if Merged(o, uniq) then Some(g) else o
  }

  function Relabelled(ids: map<Pos, Option<int>>, uniq: seq<int>, g: int): map<Pos, Option<int>>
  {
    map p | p in ids :: RelabelledId(ids[p], uniq, g)
  }

  function Repainted(ids: map<Pos, Option<int>>, shades: map<Pos, seq<int>>, uniq: seq<int>, sh: seq<int>): map<Pos, seq<int>>
  {
    map p | p in shades :: if p in ids && Merged(ids[p], uniq) then sh else shades[p]
  }

  /** The effect of the player clicking the cell at `(x, y)`. */
  function Click(t: Tracker, palette: seq<seq<int>>, x: int, y: int): Tracker
    requires Inv(t) && |palette| == PaletteCount && (x, y) in t.ids
  {
    if t.ids[(x, y)].Some? then t
    else
      var uniq := Dedup(NeighbourGroups(t.ids, x, y));
      if |uniq| == 0 then
        var g := t.counter;
        var sh := NextShades(palette, g);
        t.(counter := g + 1, groupShades := t.groupShades[g := sh],
           ids := t.ids[(x, y) := Some(g)], shades := t.shades[(x, y) := sh])
      else
        var g := uniq[0];
        assert g in IdsOnGrid(t.ids) by { GroupedNeighbourIsOnGrid(t.ids, x, y, g); }
        var sh := t.groupShades[g];
        if |uniq| == 1 then
          t.(ids := t.ids[(x, y) := Some(g)], shades := t.shades[(x, y) := sh])
        else
          t.(groupShades := t.groupShades - Members(uniq[1..]),
             ids := Relabelled(t.ids, uniq, g)[(x, y) := Some(g)],
             shades := Repainted(t.ids, t.shades, uniq, sh)[(x, y) := sh])
  }

  lemma GroupedNeighbourIsOnGrid(ids: map<Pos, Option<int>>, x: int, y: int, g: int)
    requires g in NeighbourGroups(ids, x, y)
    ensures g in IdsOnGrid(ids)
    ensures exists q :: q in ids && Adjacent((x, y), q) && ids[q] == Some(g)
  {
    var k :| 0 <= k < 4 && Around(x, y)[k] in ids && ids[Around(x, y)[k]] == Some(g);
    var q := Around(x, y)[k];
    assert Adjacent((x, y), q);
  }

  // ---- properties of a click ----

  lemma NeighbourIsSeen(ids: map<Pos, Option<int>>, x: int, y: int, q: Pos)
    requires q in ids && Adjacent((x, y), q) && ids[q].Some?
    ensures ids[q].value in NeighbourGroups(ids, x, y)
  {
    var k := if q == (x - 1, y) then 0 else if q == (x + 1, y) then 1 else if q == (x, y - 1) then 2 else 3;
    assert Around(x, y)[k] == q;
  }

  /** Colouring a cell whose coloured neighbours are all in group `g` with `g` keeps neighbours agreeing. */
  lemma ColouringKeepsAgreement(ids: map<Pos, Option<int>>, c: Pos, g: int)
    requires NeighboursAgree(ids) && c in ids
    requires forall q | q in ids && Adjacent(c, q) && ids[q].Some? :: ids[q] == Some(g)
    ensures NeighboursAgree(ids[c := Some(g)])
  {
    var ids' := ids[c := Some(g)];
    forall p, q | p in ids' && q in ids' && Adjacent(p, q) && ids'[p].Some? && ids'[q].Some?
      ensures ids'[p] == ids'[q]
    {
      if p == c && q != c {
        assert ids[q].Some?;
      } else if q == c && p != c {
        assert Adjacent(c, p);
        assert ids[p].Some?;
      } else if p != c && q != c {
        assert ids[p].Some? && ids[q].Some?;
      }
    }
  }

  /** Moving every cell of the groups `uniq` into group `g` keeps neighbours agreeing. */
  lemma RelabelKeepsAgreement(ids: map<Pos, Option<int>>, uniq: seq<int>, g: int)
    requires NeighboursAgree(ids)
    ensures NeighboursAgree(Relabelled(ids, uniq, g))
  {
    var r := Relabelled(ids, uniq, g);
    forall p, q | p in r && q in r && Adjacent(p, q) && r[p].Some? && r[q].Some?
      ensures r[p] == r[q]
    {
      assert ids[p].Some? && ids[q].Some?;
    }
  }

  /** After a merge the ids on the grid are the old ones without the absorbed groups. */
  lemma MergeIdsOnGrid(ids: map<Pos, Option<int>>, c: Pos, uniq: seq<int>)
    requires c in ids && ids[c].None? && |uniq| >= 2 && Distinct(uniq)
    requires uniq[0] in IdsOnGrid(ids)
    requires forall p | p in ids && ids[p].Some? :: ids[p].value != 0
    ensures IdsOnGrid(Relabelled(ids, uniq, uniq[0])[c := Some(uniq[0])])
         == IdsOnGrid(ids) - Members(uniq[1..])
  {
    var g := uniq[0];
    var absorbed := set k | k in uniq[1..];
    var n := Relabelled(ids, uniq, g)[c := Some(g)];
    assert g !in absorbed by {
      forall i | 1 <= i < |uniq| ensures uniq[i] != g { }
    }
    forall i | i in uniq ensures i == g || i in absorbed
    {
      var k :| 0 <= k < |uniq| && uniq[k] == i;
      if k > 0 { assert uniq[1..][k - 1] == i; }
    }
    forall i | i in IdsOnGrid(n) ensures i in IdsOnGrid(ids) - absorbed
    {
      var p :| p in n && n[p] == Some(i);
      if p != c && !Merged(ids[p], uniq) {
        assert ids[p] == Some(i);
      }
    }
    forall i | i in IdsOnGrid(ids) - absorbed ensures i in IdsOnGrid(n)
    {
      var p :| p in ids && ids[p] == Some(i);
      if Merged(ids[p], uniq) {
        assert n[p] == Some(g);
      } else {
        assert n[p] == Some(i);
      }
    }
  }

  lemma ColouringIdsOnGrid(ids: map<Pos, Option<int>>, c: Pos, g: int)
    requires c in ids && ids[c].None?
    ensures IdsOnGrid(ids[c := Some(g)]) == IdsOnGrid(ids) + {g}
  {
    var n := ids[c := Some(g)];
    assert n[c] == Some(g);
    forall i | i in IdsOnGrid(n) ensures i in IdsOnGrid(ids) + {g}
    {
      var p :| p in n && n[p] == Some(i);
      if p != c { assert ids[p] == Some(i); }
    }
    forall i | i in IdsOnGrid(ids) ensures i in IdsOnGrid(n)
    {
      var p :| p in ids && ids[p] == Some(i);
      assert n[p] == Some(i);
    }
  }

  /** Invariant after starting a new group at the uncoloured cell `c`, which has no coloured neighbour. */
  lemma NewGroupKeepsInv(t: Tracker, c: Pos, sh: seq<int>)
    requires Inv(t) && c in t.ids && t.ids[c].None?
    requires forall q | q in t.ids && Adjacent(c, q) :: t.ids[q].None?
    ensures Inv(t.(counter := t.counter + 1, groupShades := t.groupShades[t.counter := sh],
                   ids := t.ids[c := Some(t.counter)], shades := t.shades[c := sh]))
  {
    ColouringKeepsAgreement(t.ids, c, t.counter);
    ColouringIdsOnGrid(t.ids, c, t.counter);
  }

  /** Invariant after adding the uncoloured cell `c` to group `g`, the only group next to it. */
  lemma JoinKeepsInv(t: Tracker, c: Pos, g: int)
    requires Inv(t) && c in t.ids && t.ids[c].None? && g in IdsOnGrid(t.ids)
    requires forall q | q in t.ids && Adjacent(c, q) && t.ids[q].Some? :: t.ids[q] == Some(g)
    ensures Inv(t.(ids := t.ids[c := Some(g)], shades := t.shades[c := t.groupShades[g]]))
  {
    ColouringKeepsAgreement(t.ids, c, g);
    ColouringIdsOnGrid(t.ids, c, g);
    var n := t.ids[c := Some(g)];
    forall p | p in n && n[p].Some? ensures 1 <= n[p].value < t.counter
    {
      if p == c {
        var q :| q in t.ids && t.ids[q] == Some(g);
      }
    }
  }

  /** Invariant after merging the groups `uniq` (all next to `c`) into the first and colouring `c` with it. */
  lemma MergeKeepsInv(t: Tracker, c: Pos, uniq: seq<int>)
    requires Inv(t) && c in t.ids && t.ids[c].None?
    requires |uniq| >= 2 && Distinct(uniq) && uniq[0] in IdsOnGrid(t.ids)
    requires forall q | q in t.ids && Adjacent(c, q) && t.ids[q].Some? :: t.ids[q].value in uniq
    ensures Inv(t.(groupShades := t.groupShades - Members(uniq[1..]),
                   ids := Relabelled(t.ids, uniq, uniq[0])[c := Some(uniq[0])],
                   shades := Repainted(t.ids, t.shades, uniq, t.groupShades[uniq[0]])[c := t.groupShades[uniq[0]]]))
  {
    var g := uniq[0];
    var r := Relabelled(t.ids, uniq, g);
    RelabelKeepsAgreement(t.ids, uniq, g);
    forall q | q in r && Adjacent(c, q) && r[q].Some? ensures r[q] == Some(g)
    {
      assert t.ids[q].Some?;
    }
    ColouringKeepsAgreement(r, c, g);
    MergeIdsOnGrid(t.ids, c, uniq);
    var n := r[c := Some(g)];
    forall p | p in n && n[p].Some? ensures 1 <= n[p].value < t.counter
    {
      if p == c || Merged(t.ids[p], uniq) {
        var q :| q in t.ids && t.ids[q] == Some(g);
      }
    }
  }

  lemma NeighboursAmong(ids: map<Pos, Option<int>>, x: int, y: int)
    ensures forall q | q in ids && Adjacent((x, y), q) && ids[q].Some? ::
              ids[q].value in Dedup(NeighbourGroups(ids, x, y))
  {
    forall q | q in ids && Adjacent((x, y), q) && ids[q].Some?
      ensures ids[q].value in Dedup(NeighbourGroups(ids, x, y))
    {
      NeighbourIsSeen(ids, x, y, q);
    }
  }

  lemma ClickNewKeepsInv(t: Tracker, palette: seq<seq<int>>, x: int, y: int)
    requires Inv(t) && |palette| == PaletteCount && (x, y) in t.ids && t.ids[(x, y)].None?
    requires |Dedup(NeighbourGroups(t.ids, x, y))| == 0
    ensures Inv(Click(t, palette, x, y))
  {
    NeighboursAmong(t.ids, x, y);
    NewGroupKeepsInv(t, (x, y), NextShades(palette, t.counter));
  }

  lemma ClickJoinKeepsInv(t: Tracker, palette: seq<seq<int>>, x: int, y: int)
    requires Inv(t) && |palette| == PaletteCount && (x, y) in t.ids && t.ids[(x, y)].None?
    requires |Dedup(NeighbourGroups(t.ids, x, y))| == 1
    ensures Inv(Click(t, palette, x, y))
  {
    var uniq := Dedup(NeighbourGroups(t.ids, x, y));
    NeighboursAmong(t.ids, x, y);
    GroupedNeighbourIsOnGrid(t.ids, x, y, uniq[0]);
    JoinKeepsInv(t, (x, y), uniq[0]);
  }

  lemma ClickMergeKeepsInv(t: Tracker, palette: seq<seq<int>>, x: int, y: int)
    requires Inv(t) && |palette| == PaletteCount && (x, y) in t.ids && t.ids[(x, y)].None?
    requires |Dedup(NeighbourGroups(t.ids, x, y))| >= 2
    ensures Inv(Click(t, palette, x, y))
  {
    var uniq := Dedup(NeighbourGroups(t.ids, x, y));
    NeighboursAmong(t.ids, x, y);
    GroupedNeighbourIsOnGrid(t.ids, x, y, uniq[0]);
    MergeKeepsInv(t, (x, y), uniq);
  }

  /** A click keeps every invariant of the tracker. */
  lemma ClickKeepsInv(t: Tracker, palette: seq<seq<int>>, x: int, y: int)
    requires Inv(t) && |palette| == PaletteCount && (x, y) in t.ids
    ensures Inv(Click(t, palette, x, y))
  {
    if t.ids[(x, y)].None? {
      var n := |Dedup(NeighbourGroups(t.ids, x, y))|;
      if n == 0 {
        ClickNewKeepsInv(t, palette, x, y);
      } else if n == 1 {
        ClickJoinKeepsInv(t, palette, x, y);
      } else {
        ClickMergeKeepsInv(t, palette, x, y);
      }
    }
  }

  /** The entry cell (column 0, row 1) and the exit cell (last column, second-to-last row) share a group. */
  predicate Connected(t: Tracker)
  {
    var entry, exit := (0, 1), (t.w - 1, t.h - 2);
    entry in t.ids && exit in t.ids && t.ids[entry].Some? && t.ids[entry] == t.ids[exit]
  }

  /** Whether a click at `(x, y)` merges groups and the cell with group `o` is among them. */
  predicate MergedBy(t: Tracker, x: int, y: int, o: Option<int>)
  {
    var uniq := Dedup(NeighbourGroups(t.ids, x, y));
    |uniq| >= 2 && Merged(o, uniq)
  }

  /**
   * What a click does to each cell: the clicked cell ends coloured; a cell
   * of a group merged away joins the surviving group and takes its shades;
   * every other cell is untouched.
   */
  lemma ClickEffectOnCells(t: Tracker, palette: seq<seq<int>>, x: int, y: int)
    requires Inv(t) && |palette| == PaletteCount && (x, y) in t.ids
    ensures var t' := Click(t, palette, x, y);
      t'.ids.Keys == t.ids.Keys && t'.shades.Keys == t.shades.Keys &&
      t'.ids[(x, y)].Some? &&
      (t.ids[(x, y)].Some? ==> t' == t) &&
      forall p | p in t.ids && p != (x, y) ::
        if t.ids[(x, y)].None? && MergedBy(t, x, y, t.ids[p])
        then t'.ids[p] == Some(t'.ids[(x, y)].value) && t'.shades[p] == t'.shades[(x, y)]
        else t'.ids[p] == t.ids[p] && t'.shades[p] == t.shades[p]
  {
    if t.ids[(x, y)].None? {
      var uniq := Dedup(NeighbourGroups(t.ids, x, y));
      if |uniq| >= 2 {
        var t' := Click(t, palette, x, y);
        assert t'.ids == Relabelled(t.ids, uniq, uniq[0])[(x, y) := Some(uniq[0])];
      }
    }
  }

  /** After a merge no cell is left in any of the absorbed groups, and their palettes are forgotten. */
  lemma MergeErasesAbsorbed(t: Tracker, palette: seq<seq<int>>, x: int, y: int)
    requires Inv(t) && |palette| == PaletteCount && (x, y) in t.ids && t.ids[(x, y)].None?
    requires |Dedup(NeighbourGroups(t.ids, x, y))| >= 2
    ensures var uniq := Dedup(NeighbourGroups(t.ids, x, y));
      var t' := Click(t, palette, x, y);
      forall k | 1 <= k < |uniq| ::
        uniq[k] !in t'.groupShades && forall p | p in t'.ids :: t'.ids[p] != Some(uniq[k])
  {
    var uniq := Dedup(NeighbourGroups(t.ids, x, y));
    var t' := Click(t, palette, x, y);
    forall k, p | 1 <= k < |uniq| && p in t'.ids ensures t'.ids[p] != Some(uniq[k])
    {
      assert uniq[0] != uniq[k];
      if p != (x, y) && !Merged(t.ids[p], uniq) && t.ids[p].Some? {
        assert t.ids[p].value != 0;
      }
    }
    forall k | 1 <= k < |uniq| ensures uniq[k] !in t'.groupShades
    {
      assert uniq[1..][k - 1] == uniq[k];
    }
  }

  /**
   * Once the entry and exit are connected they stay connected, so every
   * later click on an uncoloured cell reports the connection again.
   */
  lemma ConnectionPersists(t: Tracker, palette: seq<seq<int>>, x: int, y: int)
    requires Inv(t) && |palette| == PaletteCount && (x, y) in t.ids
    requires Connected(t)
    ensures Connected(Click(t, palette, x, y))
  {
    ClickEffectOnCells(t, palette, x, y);
    var entry, exit := (0, 1), (t.w - 1, t.h - 2);
    var t' := Click(t, palette, x, y);
    if t.ids[(x, y)].None? {
      assert entry != (x, y) && exit != (x, y);
      assert MergedBy(t, x, y, t.ids[entry]) == MergedBy(t, x, y, t.ids[exit]);
      assert t'.ids[entry] == t'.ids[exit];
    }
  }

  // ---- the grid of cells ----

  /** The group of every cell, by position. */
  ghost function IdsOf(a: array2<MazeCell>): map<Pos, Option<int>>
    reads a, CellsOf(a)
  {
    map p | p in Coords(a.Length1, a.Length0) :: a[p.1, p.0].groupId
  }

  /** The palette of every cell, by position. */
  ghost function ShadesOf(a: array2<MazeCell>): map<Pos, seq<int>>
    reads a, CellsOf(a)
  {
    map p | p in Coords(a.Length1, a.Length0) :: a[p.1, p.0].shades
  }

  /** Group ids of the coloured cells at `ps`, in order, skipping positions off the grid. */
  function GroupsAtCells(a: array2<MazeCell>, ps: seq<Pos>): (r: seq<int>)
    reads a, CellsOf(a)
    ensures r == GroupsAt(IdsOf(a), ps)
  {
    if |ps| == 0 then []
    else
      var rest := GroupsAtCells(a, ps[1..]);
      var (nx, ny) := ps[0];
      if 0 <= nx < a.Length1 && 0 <= ny < a.Length0 && a[ny, nx].groupId.Some?
      then [a[ny, nx].groupId.value] + rest
      else rest
  }

  class MazeManager {
    var groupCounter: int
    var groupShades: map<int, seq<int>>
    const paletteShades: seq<seq<int>>
    const cellGroups: array2<MazeCell>

    ghost function State(): Tracker
      reads this, cellGroups, CellsOf(cellGroups)
    {
      Tracker(cellGroups.Length1, cellGroups.Length0, groupCounter, groupShades,
              IdsOf(cellGroups), ShadesOf(cellGroups))
    }

    ghost predicate Valid()
      reads this, cellGroups, CellsOf(cellGroups)
    {
      |paletteShades| == PaletteCount && DistinctCells(cellGroups) && Inv(State())
    }

    /** A manager over a fully built grid of uncoloured cells; `paletteShades` are the nine palettes groups cycle through. */
    constructor (cellGroups: array2<MazeCell>, paletteShades: seq<seq<int>>)
      requires |paletteShades| == PaletteCount
      requires cellGroups.Length0 >= 2 && cellGroups.Length1 >= 1 && DistinctCells(cellGroups)
      requires forall y, x | 0 <= y < cellGroups.Length0 && 0 <= x < cellGroups.Length1 :: cellGroups[y, x].groupId.None?
      ensures Valid()
      ensures this.cellGroups == cellGroups && this.paletteShades == paletteShades
      ensures groupCounter == 1 && groupShades == map[]
    {
      this.cellGroups := cellGroups;
      this.paletteShades := paletteShades;
      groupCounter := 1;
      groupShades := map[];
      new;
      assert IdsOnGrid(IdsOf(cellGroups)) == {};
    }
  
    /** Palette for the group just numbered `groupCounter - 1`. */
    function GetNextShades(): (r: seq<int>)
      reads this
      requires |paletteShades| == PaletteCount && groupCounter >= 2
      ensures r == NextShades(paletteShades, groupCounter - 1)
      ensures r in paletteShades
    {
      paletteShades[(groupCounter - 1) % |paletteShades|]
    }

    /** Whether the entry cell is coloured and in the same group as the exit cell. */
    function CheckEntryExitConnection(): (r: bool)
      reads this, cellGroups, CellsOf(cellGroups)
      requires cellGroups.Length0 >= 2 && cellGroups.Length1 >= 1
      ensures r <==> Connected(State())
    {
      var entry := cellGroups[1, 0];
      var exit := cellGroups[cellGroups.Length0 - 2, cellGroups.Length1 - 1];
      entry.groupId.Some? && entry.groupId == exit.groupId
    }

    /**
     * The player clicks `cell`, which sits at column `x` of row `y`.
     * Returns whether the entry/exit connection is reported.
     */
    method HandleCellClick(cell: MazeCell, x: int, y: int) returns (connected: bool)
      requires Valid() && 0 <= y < cellGroups.Length0 && 0 <= x < cellGroups.Length1 && cell == cellGroups[y, x]
      modifies this, CellsOf(cellGroups)
      ensures Valid()
      ensures State() == Click(old(State()), paletteShades, x, y)
      ensures LooksOf(cellGroups) == old(LooksOf(cellGroups))
      ensures connected <==> old(cell.groupId).None? && Connected(State())
    {
      if cell.groupId.Some? {
        return false;
      }
      ghost var t := State();
      var adjacent := GroupsAtCells(cellGroups, Around(x, y));
      var uniqueGroups := Dedup(adjacent);
      var groupId: int;
      var shades: seq<int>;
      if |uniqueGroups| == 0 {
        groupId, shades := NewGroup();
      } else {
        groupId := uniqueGroups[0];
        GroupedNeighbourIsOnGrid(t.ids, x, y, groupId);
        shades := groupShades[groupId];
        if |uniqueGroups| > 1 {
          Merge(uniqueGroups, groupId, shades);
        }
      }
      ghost var mid := State();
      ColourCell(cell, x, y, groupId, shades);
      ghost var t' := State();
      ClickSteps(t, paletteShades, x, y, groupId, shades, mid, t');
      ClickKeepsInv(t, paletteShades, x, y);
      assert Inv(t');
      DistinctCellsKept(cellGroups);
      connected := CheckEntryExitConnection();
    }

    /** Opens a new group: takes the next id and its palette. */
    method NewGroup() returns (g: int, sh: seq<int>)
      requires |paletteShades| == PaletteCount && groupCounter >= 1
      modifies this
      ensures g == old(groupCounter) && sh == NextShades(paletteShades, g)
      ensures State() == old(State()).(counter := g + 1, groupShades := old(groupShades)[g := sh])
      ensures LooksOf(cellGroups) == old(LooksOf(cellGroups)) && unchanged(cellGroups)
    {
      g := groupCounter;
      groupCounter := groupCounter + 1;
      sh := GetNextShades();
      groupShades := groupShades[g := sh];
      GridUntouched(cellGroups);
    }

    /** Merges the groups `uniq` into `g`, painting their cells with `sh`, and forgets the others' palettes. */
    method Merge(uniq: seq<int>, g: int, sh: seq<int>)
      requires |uniq| >= 1 && DistinctCells(cellGroups)
      modifies this, CellsOf(cellGroups)
      ensures State() == old(State()).(groupShades := old(groupShades) - Members(uniq[1..]),
                                       ids := Relabelled(old(IdsOf(cellGroups)), uniq, g),
                                       shades := Repainted(old(IdsOf(cellGroups)), old(ShadesOf(cellGroups)), uniq, sh))
      ensures LooksOf(cellGroups) == old(LooksOf(cellGroups)) && unchanged(cellGroups)
    {
      Relabel(uniq, g, sh);
      label Relabelled:
      ForgetGroups(uniq[1..]);
      GridUntouched@Relabelled(cellGroups);
    }

    /** Puts `cell`, at column `x` of row `y`, in group `g` with palette `sh`. */
    method ColourCell(cell: MazeCell, x: int, y: int, g: int, sh: seq<int>)
      requires 0 <= y < cellGroups.Length0 && 0 <= x < cellGroups.Length1 && cell == cellGroups[y, x]
      requires DistinctCells(cellGroups)
      modifies cell
      ensures unchanged(cellGroups)
      ensures IdsOf(cellGroups) == old(IdsOf(cellGroups))[(x, y) := Some(g)]
      ensures ShadesOf(cellGroups) == old(ShadesOf(cellGroups))[(x, y) := sh]
      ensures State() == old(State()).(ids := old(IdsOf(cellGroups))[(x, y) := Some(g)],
                                       shades := old(ShadesOf(cellGroups))[(x, y) := sh])
      ensures LooksOf(cellGroups) == old(LooksOf(cellGroups))
    {
      ghost var ids0, shades0, looks0 := IdsOf(cellGroups), ShadesOf(cellGroups), LooksOf(cellGroups);
      cell.groupId := Some(g);
      cell.SetColorKey(sh);
      forall j, i | 0 <= j < cellGroups.Length0 && 0 <= i < cellGroups.Length1 && (j, i) != (y, x)
        ensures cellGroups[j, i].groupId == ids0[(i, j)] && cellGroups[j, i].shades == shades0[(i, j)]
      {
        assert cellGroups[j, i] != cell;
      }
      forall j, i | 0 <= j < cellGroups.Length0 && 0 <= i < cellGroups.Length1
        ensures (cellGroups[j, i].shadeIndex, cellGroups[j, i].size) == looks0[(i, j)]
      {
      }
      CellUpdateMaps(cellGroups, ids0, shades0, x, y);
      LooksMap(cellGroups, looks0);
    }

    /** Forgets the palettes of the groups `absorbed`, one at a time. */
    method ForgetGroups(absorbed: seq<int>)
      modifies this
      ensures groupShades == old(groupShades) - Members(absorbed)
      ensures groupCounter == old(groupCounter)
    {
      for i := 0 to |absorbed|
        invariant groupShades == old(groupShades) - Members(absorbed[..i])
        invariant groupCounter == old(groupCounter)
      {
        assert Members(absorbed[..i + 1]) == Members(absorbed[..i]) + {absorbed[i]};
        groupShades := groupShades - {absorbed[i]};
      }
      assert absorbed[..|absorbed|] == absorbed;
    }

    /** Moves every cell of the groups `uniq` into group `g` and gives it the palette `sh`. */
    method Relabel(uniq: seq<int>, g: int, sh: seq<int>)
      requires DistinctCells(cellGroups)
      modifies CellsOf(cellGroups)
      ensures IdsOf(cellGroups) == Relabelled(old(IdsOf(cellGroups)), uniq, g)
      ensures ShadesOf(cellGroups) == Repainted(old(IdsOf(cellGroups)), old(ShadesOf(cellGroups)), uniq, sh)
      ensures LooksOf(cellGroups) == old(LooksOf(cellGroups))
    {
      ghost var ids0, shades0, looks0 := IdsOf(cellGroups), ShadesOf(cellGroups), LooksOf(cellGroups);
      for y := 0 to cellGroups.Length0
        invariant RowsRelabelled(cellGroups, y, uniq, g, sh)
        invariant forall j, i | y <= j < cellGroups.Length0 && 0 <= i < cellGroups.Length1 :: UntouchedCell(cellGroups[j, i])
      {
        RelabelRow(y, uniq, g, sh);
      }
      forall j, i | 0 <= j < cellGroups.Length0 && 0 <= i < cellGroups.Length1
        ensures cellGroups[j, i].groupId == RelabelledId(ids0[(i, j)], uniq, g)
        ensures cellGroups[j, i].shades == if Merged(ids0[(i, j)], uniq) then sh else shades0[(i, j)]
        ensures (cellGroups[j, i].shadeIndex, cellGroups[j, i].size) == looks0[(i, j)]
      {
        assert RelabelledCell(cellGroups[j, i], uniq, g, sh);
      }
      RelabelledMaps(cellGroups, ids0, shades0, uniq, g, sh);
      LooksMap(cellGroups, looks0);
    }

    /** One row of a merge: the cells of row `y` are relabelled, all other cells are left alone. */
    method RelabelRow(y: int, uniq: seq<int>, g: int, sh: seq<int>)
      requires 0 <= y < cellGroups.Length0 && DistinctCells(cellGroups)
      modifies CellsOf(cellGroups)
      ensures forall i | 0 <= i < cellGroups.Length1 :: RelabelledCell(cellGroups[y, i], uniq, g, sh)
      ensures forall j, i | 0 <= j < cellGroups.Length0 && j != y && 0 <= i < cellGroups.Length1 ::
                UntouchedCell(cellGroups[j, i])
    {
      for x := 0 to cellGroups.Length1
        invariant forall i | 0 <= i < x :: RelabelledCell(cellGroups[y, i], uniq, g, sh)
        invariant forall i | x <= i < cellGroups.Length1 :: UntouchedCell(cellGroups[y, i])
        invariant forall j, i | 0 <= j < cellGroups.Length0 && j != y && 0 <= i < cellGroups.Length1 ::
                    UntouchedCell(cellGroups[j, i])
      {
        var c := cellGroups[y, x];
        assert UntouchedCell(c);
        RelabelCell(c, uniq, g, sh);
        assert RelabelledCell(c, uniq, g, sh);
      }
    }
  }

  /** Cell `c` after a merge into `g`: moved and repainted if its group was merged, untouched otherwise. */
  twostate predicate RelabelledCell(c: MazeCell, uniq: seq<int>, g: int, sh: seq<int>)
    reads c
  {
    c.shadeIndex == old(c.shadeIndex) && c.size == old(c.size) &&
    if Merged(old(c.groupId), uniq)
    then c.groupId == Some(g) && c.shades == sh
    else c.groupId == old(c.groupId) && c.shades == old(c.shades)
  }

  /** The cells of the first `rows` rows of `a` are relabelled. */
  twostate predicate RowsRelabelled(a: array2<MazeCell>, rows: int, uniq: seq<int>, g: int, sh: seq<int>)
    requires rows <= a.Length0
    reads a, CellsOf(a)
  {
    unchanged(a) &&
    forall j, i | 0 <= j < rows && 0 <= i < a.Length1 :: RelabelledCell(a[j, i], uniq, g, sh)
  }

  twostate predicate UntouchedCell(c: MazeCell)
    reads c
  {
    c.groupId == old(c.groupId) && c.shades == old(c.shades) &&
    c.shadeIndex == old(c.shadeIndex) && c.size == old(c.size)
  }

  /** The step of a merge for one cell. */
  method RelabelCell(c: MazeCell, uniq: seq<int>, g: int, sh: seq<int>)
    modifies c
    ensures RelabelledCell(c, uniq, g, sh)
  {
    if c.groupId.Some? && c.groupId.value != 0 && c.groupId.value in uniq {
      c.groupId := Some(g);
      c.SetColorKey(sh);
    }
  }

  lemma RelabelledMaps(a: array2<MazeCell>, ids0: map<Pos, Option<int>>, shades0: map<Pos, seq<int>>,
                       uniq: seq<int>, g: int, sh: seq<int>)
    requires ids0.Keys == Coords(a.Length1, a.Length0) && shades0.Keys == Coords(a.Length1, a.Length0)
    requires forall j, i | 0 <= j < a.Length0 && 0 <= i < a.Length1 ::
               a[j, i].groupId == RelabelledId(ids0[(i, j)], uniq, g) &&
               a[j, i].shades == if Merged(ids0[(i, j)], uniq) then sh else shades0[(i, j)]
    ensures IdsOf(a) == Relabelled(ids0, uniq, g)
    ensures ShadesOf(a) == Repainted(ids0, shades0, uniq, sh)
  {
  }

  /** Writing the cell at `(x, y)` changes the two maps at that position only. */
  lemma CellUpdateMaps(a: array2<MazeCell>, ids0: map<Pos, Option<int>>, shades0: map<Pos, seq<int>>, x: int, y: int)
    requires 0 <= y < a.Length0 && 0 <= x < a.Length1
    requires ids0.Keys == Coords(a.Length1, a.Length0) && shades0.Keys == Coords(a.Length1, a.Length0)
    requires forall j, i | 0 <= j < a.Length0 && 0 <= i < a.Length1 && (j, i) != (y, x) ::
               a[j, i].groupId == ids0[(i, j)] && a[j, i].shades == shades0[(i, j)]
    ensures IdsOf(a) == ids0[(x, y) := a[y, x].groupId]
    ensures ShadesOf(a) == shades0[(x, y) := a[y, x].shades]
  {
    var ids, shades := IdsOf(a), ShadesOf(a);
    assert ids.Keys == ids0[(x, y) := a[y, x].groupId].Keys;
    assert shades.Keys == shades0[(x, y) := a[y, x].shades].Keys;
    forall p | p in ids.Keys
      ensures ids[p] == ids0[(x, y) := a[y, x].groupId][p]
      ensures shades[p] == shades0[(x, y) := a[y, x].shades][p]
    {
      if p != (x, y) {
        assert (p.1, p.0) != (y, x);
      }
    }
  }

  /** The shade index and size of every cell, by position. */
  ghost function LooksOf(a: array2<MazeCell>): map<Pos, (int, int)>
    reads a, CellsOf(a)
  {
    map p | p in Coords(a.Length1, a.Length0) :: (a[p.1, p.0].shadeIndex, a[p.1, p.0].size)
  }

  /** A grid whose array was not written still holds a cell of its own at every position. */
  twostate lemma DistinctCellsKept(a: array2<MazeCell>)
    requires old(DistinctCells(a)) && unchanged(a)
    ensures DistinctCells(a)
  {
  }

  /** A grid whose array and cells were not written shows the same groups, palettes and looks. */
  twostate lemma GridUntouched(a: array2<MazeCell>)
    requires unchanged(a) && forall j, i | 0 <= j < a.Length0 && 0 <= i < a.Length1 :: unchanged(a[j, i])
    ensures IdsOf(a) == old(IdsOf(a)) && ShadesOf(a) == old(ShadesOf(a)) && LooksOf(a) == old(LooksOf(a))
  {
  }

  /** The looks of every cell, read off the grid, are the map that lists them. */
  lemma LooksMap(a: array2<MazeCell>, looks0: map<Pos, (int, int)>)
    requires looks0.Keys == Coords(a.Length1, a.Length0)
    requires forall j, i | 0 <= j < a.Length0 && 0 <= i < a.Length1 ::
               (a[j, i].shadeIndex, a[j, i].size) == looks0[(i, j)]
    ensures LooksOf(a) == looks0
  {
  }

  /**
   * The click as the manager performs it: the group `g` and palette `sh`
   * are chosen, the merge (if any) gives `mid`, and colouring the clicked
   * cell gives `t'`.
   */
  lemma ClickSteps(t: Tracker, palette: seq<seq<int>>, x: int, y: int, g: int, sh: seq<int>, mid: Tracker, t': Tracker)
    requires Inv(t) && |palette| == PaletteCount && (x, y) in t.ids && t.ids[(x, y)].None?
    requires var uniq := Dedup(NeighbourGroups(t.ids, x, y));
      && (|uniq| == 0 ==> g == t.counter && sh == NextShades(palette, t.counter))
      && (|uniq| > 0 ==> g == uniq[0] && g in t.groupShades && sh == t.groupShades[g])
      && (|uniq| == 0 ==> mid == t.(counter := t.counter + 1, groupShades := t.groupShades[g := sh]))
      && (|uniq| == 1 ==> mid == t)
      && (|uniq| > 1 ==> mid == t.(groupShades := t.groupShades - Members(uniq[1..]),
                                   ids := Relabelled(t.ids, uniq, g),
                                   shades := Repainted(t.ids, t.shades, uniq, sh)))
      && t' == mid.(ids := mid.ids[(x, y) := Some(g)], shades := mid.shades[(x, y) := sh])
    ensures t' == Click(t, palette, x, y)
  {
  }
}
