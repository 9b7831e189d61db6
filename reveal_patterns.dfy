/**
 * The orders in which the maze is revealed (src/app/screens/main/MazeRevealPatterns.ts)
 * and the revealer that hands the queue out a few coordinates per tick.
 *
 * Every order starts from the coordinates of the grid in row-major order
 * (row by row, left to right) and sorts them by a distance with a stable
 * sort. `Math.hypot` is replaced by an integer key that orders positions the
 * same way: four times the squared distance to the centre for the centre-out
 * order, the squared distance to (0, 0) for the corner-to-corner order.
 * Because the sort is stable and its input is row-major, positions at the
 * same distance stay in row-major order: the result is the coordinates
 * sorted by (key, row, column), which is how it is specified here.
 */
module Reveal {
  import opened Grid
  import opened Seqs

  // ---------------------------------------------------------------------------
  // Row-major enumeration
  // ---------------------------------------------------------------------------

  /** The first `n` positions of row `y`, left to right. */
  function Row(n: nat, y: int): (r: seq<Pos>)
    ensures |r| == n
    ensures forall i | 0 <= i < n :: r[i] == (i, y)
  {
    if n == 0 then [] else Row(n - 1, y) + [(n - 1, y)]
  }

  /** The first `h` rows of a grid `w` wide, row by row. */
  function RowMajor(w: nat, h: nat): seq<Pos>
  {
    if h == 0 then [] else RowMajor(w, h - 1) + Row(w, h - 1)
  }

  /** `p` comes before `q` when the grid is read row by row, left to right. */
  predicate RowMajorBefore(p: Pos, q: Pos)
  {
    p.1 < q.1 || (p.1 == q.1 && p.0 < q.0)
  }

  /** Each coordinate of the grid exactly once. */
  predicate Arranges(q: seq<Pos>, w: nat, h: nat)
  {
    |q| == w * h && Distinct(q) && Members(q) == Coords(w, h)
  }

  lemma {:induction false} RowMajorLength(w: nat, h: nat)
    ensures |RowMajor(w, h)| == w * h
  {
    if h > 0 {
      RowMajorLength(w, h - 1);
      assert w * h == w * (h - 1) + w;
    }
  }

  lemma {:induction false} RowMajorMembers(w: nat, h: nat)
    ensures Members(RowMajor(w, h)) == Coords(w, h)
  {
    if h > 0 {
      RowMajorMembers(w, h - 1);
      var a, b := RowMajor(w, h - 1), Row(w, h - 1);
      assert RowMajor(w, h) == a + b;
      forall p | p in Coords(w, h) ensures p in a + b {
        if p.1 < h - 1 {
          assert p in Coords(w, h - 1);
        } else {
          assert b[p.0] == p;
        }
      }
      forall p | p in a + b ensures p in Coords(w, h) {
        if p in a {
          assert p in Coords(w, h - 1);
        } else {
          var k :| 0 <= k < |b| && b[k] == p;
        }
      }
    }
  }

  lemma {:induction false} RowMajorSorted(w: nat, h: nat)
    ensures forall i, j | 0 <= i < j < |RowMajor(w, h)| ::
      RowMajorBefore(RowMajor(w, h)[i], RowMajor(w, h)[j])
  {
    if h > 0 {
      RowMajorSorted(w, h - 1);
      RowMajorMembers(w, h - 1);
      var a, b := RowMajor(w, h - 1), Row(w, h - 1);
      assert RowMajor(w, h) == a + b;
      forall i, j | 0 <= i < j < |a + b| ensures RowMajorBefore((a + b)[i], (a + b)[j]) {
        if j < |a| {
          assert (a + b)[i] == a[i] && (a + b)[j] == a[j];
        } else if i < |a| {
          assert a[i] in Members(a);
          assert (a + b)[i] == a[i] && (a + b)[j] == b[j - |a|];
        } else {
          assert (a + b)[i] == b[i - |a|] && (a + b)[j] == b[j - |a|];
        }
      }
    }
  }

  /** The row-major enumeration lists each coordinate once, in row-major order. */
  lemma RowMajorArranges(w: nat, h: nat)
    ensures Arranges(RowMajor(w, h), w, h)
    ensures forall i, j | 0 <= i < j < |RowMajor(w, h)| ::
      RowMajorBefore(RowMajor(w, h)[i], RowMajor(w, h)[j])
  {
    RowMajorLength(w, h);
    RowMajorMembers(w, h);
    RowMajorSorted(w, h);
  }

  /** `queue` holds the grid's coordinates row by row, as the source's nested loops push them. */
  method RowMajorQueue(w: nat, h: nat) returns (queue: seq<Pos>)
    ensures queue == RowMajor(w, h)
  {
    queue := [];
    for y := 0 to h
      invariant queue == RowMajor(w, y)
    {
      for x := 0 to w
        invariant queue == RowMajor(w, y) + Row(x, y)
      {
        queue := queue + [(x, y)];
      }
    }
  }

  // ---------------------------------------------------------------------------
  // Stable sort by a distance key
  // ---------------------------------------------------------------------------

  /** `p` is placed before `q`: nearer, or as near and earlier in row-major order. */
  predicate Ahead(key: Pos -> int, p: Pos, q: Pos)
  {
    key(p) < key(q) || (key(p) == key(q) && RowMajorBefore(p, q))
  }

  /** Every element is placed ahead of every later one. */
  predicate SortedBy(key: Pos -> int, s: seq<Pos>)
  {
    forall i, j | 0 <= i < j < |s| :: Ahead(key, s[i], s[j])
  }

  /** `p` inserted into `s` in front of the first element it is ahead of. */
  function Insert(key: Pos -> int, p: Pos, s: seq<Pos>): seq<Pos>
  {
    if |s| == 0 then [p]
    else if Ahead(key, p, s[0]) then [p] + s
    else [s[0]] + Insert(key, p, s[1..])
  }

  /** `s` sorted by `key`, ties in row-major order. */
  function Sort(key: Pos -> int, s: seq<Pos>): seq<Pos>
  {
    if |s| == 0 then [] else Insert(key, s[0], Sort(key, s[1..]))
  }

  lemma {:induction false} InsertPermutes(key: Pos -> int, p: Pos, s: seq<Pos>)
    ensures multiset(Insert(key, p, s)) == multiset(s) + multiset{p}
  {
    if |s| > 0 && !Ahead(key, p, s[0]) {
      InsertPermutes(key, p, s[1..]);
      assert s == [s[0]] + s[1..];
    }
  }

  /** A sorted list starting with `a` is `a` ahead of a sorted rest. */
  lemma SortedCons(key: Pos -> int, a: Pos, t: seq<Pos>)
    requires SortedBy(key, t) && forall x | x in t :: Ahead(key, a, x)
    ensures SortedBy(key, [a] + t)
  {
    forall i, j | 0 <= i < j < |[a] + t| ensures Ahead(key, ([a] + t)[i], ([a] + t)[j]) {
      if i > 0 {
        assert ([a] + t)[i] == t[i - 1] && ([a] + t)[j] == t[j - 1];
      } else {
        assert ([a] + t)[j] == t[j - 1];
      }
    }
  }

  lemma {:induction false} InsertSorted(key: Pos -> int, p: Pos, s: seq<Pos>)
    requires SortedBy(key, s) && p !in s
    ensures SortedBy(key, Insert(key, p, s))
  {
    if |s| == 0 {
    } else if Ahead(key, p, s[0]) {
      forall x | x in s ensures Ahead(key, p, x) {
        var k :| 0 <= k < |s| && s[k] == x;
        assert k == 0 || Ahead(key, s[0], s[k]);
      }
      SortedCons(key, p, s);
    } else {
      var t := Insert(key, p, s[1..]);
      InsertSorted(key, p, s[1..]);
      InsertPermutes(key, p, s[1..]);
      forall x | x in t ensures Ahead(key, s[0], x) {
        assert x in multiset(t);
        if x != p {
          var k :| 0 <= k < |s[1..]| && s[1..][k] == x;
          assert s[k + 1] == x;
        }
      }
      SortedCons(key, s[0], t);
    }
  }

  /** Sorting keeps every element, as often as it occurs. */
  lemma {:induction false} SortPermutes(key: Pos -> int, s: seq<Pos>)
    ensures multiset(Sort(key, s)) == multiset(s)
  {
    if |s| > 0 {
      SortPermutes(key, s[1..]);
      InsertPermutes(key, s[0], Sort(key, s[1..]));
      assert s == [s[0]] + s[1..];
    }
  }

  /** Sorting a list without repeats orders it by key, ties in row-major order. */
  lemma {:induction false} SortSorts(key: Pos -> int, s: seq<Pos>)
    requires Distinct(s)
    ensures SortedBy(key, Sort(key, s))
  {
    if |s| > 0 {
      assert Distinct(s[1..]) by {
        forall i, j | 0 <= i < j < |s[1..]| ensures s[1..][i] != s[1..][j] {
          assert s[1..][i] == s[i + 1] && s[1..][j] == s[j + 1];
        }
      }
      SortSorts(key, s[1..]);
      SortPermutes(key, s[1..]);
      assert s[0] !in s[1..] by {
        forall k | 0 <= k < |s[1..]| ensures s[1..][k] != s[0] {
          assert s[1..][k] == s[k + 1];
        }
      }
      assert s[0] !in multiset(Sort(key, s[1..]));
      InsertSorted(key, s[0], Sort(key, s[1..]));
    }
  }

  /**
   * Two lists sorted by the same key with the same elements are equal: the
   * order is fully determined, which is what a stable sort of a row-major
   * list guarantees.
   */
  lemma {:induction false} SortedUnique(key: Pos -> int, a: seq<Pos>, b: seq<Pos>)
    requires SortedBy(key, a) && SortedBy(key, b) && Members(a) == Members(b)
    ensures a == b
  {
    assert |a| > 0 ==> a[0] in Members(b);
    assert |b| > 0 ==> b[0] in Members(a);
    if |a| > 0 && |b| > 0 {
      FirstIsLeast(key, a);
      FirstIsLeast(key, b);
      assert a[0] == b[0];
      assert Members(a[1..]) == Members(b[1..]) by {
        forall x ensures x in Members(a[1..]) <==> x in Members(b[1..]) {
          if x in Members(a[1..]) {
            var k :| 0 <= k < |a[1..]| && a[1..][k] == x;
            assert a[k + 1] == x && x != a[0];
            assert x in Members(b);
            var m :| 0 <= m < |b| && b[m] == x;
            assert m > 0 && b[1..][m - 1] == x;
          }
          if x in Members(b[1..]) {
            var k :| 0 <= k < |b[1..]| && b[1..][k] == x;
            assert b[k + 1] == x && x != b[0];
            assert x in Members(a);
            var m :| 0 <= m < |a| && a[m] == x;
            assert m > 0 && a[1..][m - 1] == x;
          }
        }
      }
      SortedUnique(key, a[1..], b[1..]);
      assert a == [a[0]] + a[1..] && b == [b[0]] + b[1..];
    }
  }

  /** The head of a sorted list is ahead of every other element. */
  lemma FirstIsLeast(key: Pos -> int, s: seq<Pos>)
    requires SortedBy(key, s) && |s| > 0
    ensures forall x | x in s :: x == s[0] || Ahead(key, s[0], x)
  {
    forall x | x in s ensures x == s[0] || Ahead(key, s[0], x) {
      var k :| 0 <= k < |s| && s[k] == x;
      assert k == 0 || Ahead(key, s[0], s[k]);
    }
  }

  /** A sorted list has no repeats. */
  lemma SortedDistinct(key: Pos -> int, s: seq<Pos>)
    requires SortedBy(key, s)
    ensures Distinct(s)
  {
    forall i, j | 0 <= i < j < |s| ensures s[i] != s[j] {
      assert Ahead(key, s[i], s[j]);
    }
  }

  /** A list sorted from the row-major enumeration lists every coordinate once, in key order. */
  lemma SortedArrangement(key: Pos -> int, w: nat, h: nat)
    ensures Arranges(Sort(key, RowMajor(w, h)), w, h)
    ensures SortedBy(key, Sort(key, RowMajor(w, h)))
  {
    RowMajorArranges(w, h);
    SortPermutes(key, RowMajor(w, h));
    PermutationKeeps(Sort(key, RowMajor(w, h)), RowMajor(w, h));
    SortSorts(key, RowMajor(w, h));
  }

  // ---------------------------------------------------------------------------
  // The four orders
  // ---------------------------------------------------------------------------

  function Square(n: int): int { n * n }

  /**
   * Four times the squared distance from `p` to the centre ((w-1)/2, (h-1)/2),
   * in integers.
   */
  function CenterKey(w: int, h: int): Pos -> int
  {
    (p: Pos) => Square(2 * p.0 - (w - 1)) + Square(2 * p.1 - (h - 1))
  }

  /** The squared distance from `p` to the corner (0, 0). */
  function CornerKey(): Pos -> int
  {
    (p: Pos) => Square(p.0) + Square(p.1)
  }

  /**
   * The centre key is four times the squared Euclidean distance to the centre,
   * so it orders positions as `Math.hypot(x - cx, y - cy)` does.
   */
  lemma CenterKeyIsScaledDistance(w: int, h: int, p: Pos)
    ensures var dx, dy := p.0 as real - (w - 1) as real / 2.0, p.1 as real - (h - 1) as real / 2.0;
      CenterKey(w, h)(p) as real == 4.0 * (dx * dx + dy * dy)
  {
    var a, b := 2 * p.0 - (w - 1), 2 * p.1 - (h - 1);
    assert CenterKey(w, h)(p) == Square(a) + Square(b);
    SumOfDoubledSquares(a, b, p.0 as real - (w - 1) as real / 2.0, p.1 as real - (h - 1) as real / 2.0);
  }

  /** The sum of the squares of `2 * dx` and `2 * dy`, taken in integers, is `4 * (dx² + dy²)`. */
  lemma SumOfDoubledSquares(a: int, b: int, dx: real, dy: real)
    requires a as real == 2.0 * dx && b as real == 2.0 * dy
    ensures (Square(a) + Square(b)) as real == 4.0 * (dx * dx + dy * dy)
  {
    DoubledSquare(a, dx);
    DoubledSquare(b, dy);
    var sx, sy := dx * dx, dy * dy;
    assert (Square(a) + Square(b)) as real == 4.0 * sx + 4.0 * sy;
  }

  /** Squaring commutes with the cast to real, and doubling quadruples the square. */
  lemma DoubledSquare(a: int, d: real)
    requires a as real == 2.0 * d
    ensures Square(a) as real == 4.0 * (d * d)
  {
    var r := a as real;
    assert Square(a) as real == r * r by {
      if a >= 0 {
        CastSquare(a);
      } else {
        CastSquare(-a);
        assert Square(a) == (-a) * (-a);
        assert r * r == (-a) as real * (-a) as real;
      }
    }
    calc {
      r * r;
      (2.0 * d) * (2.0 * d);
      4.0 * (d * d);
    }
  }

  /** The cast to real of `n * n` is the real square, by induction on `n`. */
  lemma {:induction false} CastSquare(n: nat)
    ensures (n * n) as real == (n as real) * (n as real)
  {
    if n > 0 {
      CastSquare(n - 1);
      var m := n - 1;
      assert n * n == m * m + 2 * m + 1;
      assert (n as real) * (n as real) == (m as real) * (m as real) + 2.0 * (m as real) + 1.0;
    }
  }

  /** The centre-out order of a grid `w` wide and `h` high. */
  function CenterOut(w: nat, h: nat): seq<Pos>
  {
    Sort(CenterKey(w, h), RowMajor(w, h))
  }

  /** The corner-to-corner order of a grid `w` wide and `h` high. */
  function CornerToCorner(w: nat, h: nat): seq<Pos>
  {
    Sort(CornerKey(), RowMajor(w, h))
  }

  /**
   * `fillRevealQueueCenterOut`: every coordinate once, nearest to the centre
   * first, positions at the same distance in row-major order. The source
   * reads the width from the first row, so the grid must have one.
   */
  method FillCenterOut<T>(mazeData: seq<seq<T>>) returns (queue: seq<Pos>)
    requires |mazeData| > 0
    ensures queue == CenterOut(|mazeData[0]|, |mazeData|)
    ensures Arranges(queue, |mazeData[0]|, |mazeData|)
    ensures SortedBy(CenterKey(|mazeData[0]|, |mazeData|), queue)
  {
    var w, h := |mazeData[0]|, |mazeData|;
    queue := RowMajorQueue(w, h);
    queue := Sort(CenterKey(w, h), queue);
    SortedArrangement(CenterKey(w, h), w, h);
  }

  /** `fillRevealQueueEdgesIn`: the centre-out order back to front, farthest first. */
  method FillEdgesIn<T>(mazeData: seq<seq<T>>) returns (queue: seq<Pos>)
    requires |mazeData| > 0
    ensures queue == Reverse(CenterOut(|mazeData[0]|, |mazeData|))
    ensures Arranges(queue, |mazeData[0]|, |mazeData|)
    ensures forall i, j | 0 <= i < j < |queue| ::
      Ahead(CenterKey(|mazeData[0]|, |mazeData|), queue[j], queue[i])
  {
    var base := FillCenterOut(mazeData);
    queue := Reverse(base);
    ReversePermutes(base);
    PermutationKeeps(queue, base);
    forall i, j | 0 <= i < j < |queue|
      ensures Ahead(CenterKey(|mazeData[0]|, |mazeData|), queue[j], queue[i])
    {
      assert queue[i] == base[|base| - 1 - i] && queue[j] == base[|base| - 1 - j];
    }
  }

  /** `fillRevealQueueCornerToCorner`: every coordinate once, nearest to (0, 0) first. */
  method FillCornerToCorner<T>(mazeData: seq<seq<T>>) returns (queue: seq<Pos>)
    requires |mazeData| > 0
    ensures queue == CornerToCorner(|mazeData[0]|, |mazeData|)
    ensures Arranges(queue, |mazeData[0]|, |mazeData|)
    ensures SortedBy(CornerKey(), queue)
  {
    var w, h := |mazeData[0]|, |mazeData|;
    queue := RowMajorQueue(w, h);
    queue := Sort(CornerKey(), queue);
    SortedArrangement(CornerKey(), w, h);
  }

  // ---------------------------------------------------------------------------
  // Interleaving from both ends
  // ---------------------------------------------------------------------------

  /** `s[lo]`, `s[hi]`, `s[lo+1]`, `s[hi-1]`, ..., the middle one once. */
  function MixedRange<T>(s: seq<T>, lo: int, hi: int): seq<T>
    requires 0 <= lo && hi < |s|
    decreases hi - lo + 1
  {
    if lo > hi then []
    else if lo == hi then [s[lo]]
    else [s[lo], s[hi]] + MixedRange(s, lo + 1, hi - 1)
  }

  /** The whole of `s`, interleaved from both ends. */
  function Mixed<T>(s: seq<T>): seq<T>
  {
    MixedRange(s, 0, |s| - 1)
  }

  /**
   * Position 2m of the interleaving holds the m-th element from the front, and
   * position 2m+1 the m-th from the back.
   */
  lemma {:induction false} MixedRangeAt<T>(s: seq<T>, lo: int, hi: int)
    requires 0 <= lo && hi < |s| && lo <= hi + 1
    ensures |MixedRange(s, lo, hi)| == hi - lo + 1
    ensures forall m | 0 <= 2 * m < hi - lo + 1 :: MixedRange(s, lo, hi)[2 * m] == s[lo + m]
    ensures forall m | 0 <= 2 * m + 1 < hi - lo + 1 :: MixedRange(s, lo, hi)[2 * m + 1] == s[hi - m]
    decreases hi - lo + 1
  {
    if lo < hi {
      MixedRangeAt(s, lo + 1, hi - 1);
      var r := MixedRange(s, lo + 1, hi - 1);
      var t := MixedRange(s, lo, hi);
      assert t == [s[lo], s[hi]] + r;
      forall m | 1 <= m && 2 * m < hi - lo + 1
        ensures t[2 * m] == s[lo + m]
      {
        assert t[2 * m] == r[2 * (m - 1)];
      }
      forall m | 1 <= m && 2 * m + 1 < hi - lo + 1
        ensures t[2 * m + 1] == s[hi - m]
      {
        assert t[2 * m + 1] == r[2 * (m - 1) + 1];
      }
    }
  }

  /** The interleaving is a rearrangement of the range it is taken from. */
  lemma {:induction false} MixedRangePermutes<T>(s: seq<T>, lo: int, hi: int)
    requires 0 <= lo && hi < |s| && lo <= hi + 1
    ensures multiset(MixedRange(s, lo, hi)) == multiset(s[lo..hi + 1])
    decreases hi - lo + 1
  {
    if lo < hi {
      var inner := hi - 1;
      MixedRangePermutes(s, lo + 1, inner);
      var r := MixedRange(s, lo + 1, inner);
      assert MixedRange(s, lo, hi) == [s[lo], s[hi]] + r;
      assert s[lo + 1..inner + 1] == s[lo + 1..hi];
      RangeEnds(s, lo, hi);
      assert multiset([s[lo], s[hi]] + r) == multiset{s[lo], s[hi]} + multiset(r);
    } else if lo == hi {
      assert s[lo..hi + 1] == [s[lo]];
    } else {
      assert s[lo..hi + 1] == [];
    }
  }

  /** A range holds its two ends and what lies between them. */
  lemma RangeEnds<T>(s: seq<T>, lo: int, hi: int)
    requires 0 <= lo < hi < |s|
    ensures multiset(s[lo..hi + 1]) == multiset{s[lo], s[hi]} + multiset(s[lo + 1..hi])
  {
    var mid := s[lo + 1..hi];
    assert s[lo..hi + 1] == [s[lo]] + mid + [s[hi]];
  }

  /** `Mixed(s)` has the length of `s`, the same elements, and alternates front and back. */
  lemma MixedRearranges<T>(s: seq<T>)
    ensures |Mixed(s)| == |s| && multiset(Mixed(s)) == multiset(s)
    ensures forall m | 0 <= 2 * m < |s| :: Mixed(s)[2 * m] == s[m]
    ensures forall m | 0 <= 2 * m + 1 < |s| :: Mixed(s)[2 * m + 1] == s[|s| - 1 - m]
  {
    MixedRangeAt(s, 0, |s| - 1);
    MixedRangePermutes(s, 0, |s| - 1);
    assert s[0..|s|] == s;
  }

  /**
   * `fillRevealQueueMix`: the centre-out order taken alternately from its
   * front and its back, the middle element once when the length is odd.
   */
  method FillMix<T>(mazeData: seq<seq<T>>) returns (mixed: seq<Pos>)
    requires |mazeData| > 0
    ensures mixed == Mixed(CenterOut(|mazeData[0]|, |mazeData|))
    ensures Arranges(mixed, |mazeData[0]|, |mazeData|)
  {
    var base := FillCenterOut(mazeData);
    mixed := [];
    var left, right := 0, |base| - 1;
    while left <= right
      invariant 0 <= left && right < |base| && left + right == |base| - 1
      invariant mixed + MixedRange(base, left, right) == Mixed(base)
      decreases right - left + 1
    {
      if left == right {
        assert MixedRange(base, left, right) == [base[left]];
        mixed := mixed + [base[left]];
        assert MixedRange(base, left + 1, right - 1) == [];
      } else {
        ghost var rest := MixedRange(base, left + 1, right - 1);
        assert MixedRange(base, left, right) == [base[left], base[right]] + rest;
        assert mixed + MixedRange(base, left, right) == (mixed + [base[left], base[right]]) + rest;
        mixed := mixed + [base[left], base[right]];
      }
      left := left + 1;
      right := right - 1;
    }
    MixedArranges(base, |mazeData[0]|, |mazeData|);
  }

  /** Interleaving an arrangement of the grid gives another arrangement of it. */
  lemma MixedArranges(base: seq<Pos>, w: nat, h: nat)
    requires Arranges(base, w, h)
    ensures Arranges(Mixed(base), w, h)
  {
    MixedRearranges(base);
    PermutationKeeps(Mixed(base), base);
  }

  /**
   * `fillRevealQueueRandomPattern`, with the random draw `Math.floor(Math.random() * 4)`
   * passed in as `choice`.
   */
  method FillRandomPattern<T>(mazeData: seq<seq<T>>, choice: int) returns (queue: seq<Pos>)
    requires |mazeData| > 0 && 0 <= choice < 4
    ensures Arranges(queue, |mazeData[0]|, |mazeData|)
    ensures choice == 0 ==> queue == CenterOut(|mazeData[0]|, |mazeData|)
    ensures choice == 1 ==> queue == Reverse(CenterOut(|mazeData[0]|, |mazeData|))
    ensures choice == 2 ==> queue == Mixed(CenterOut(|mazeData[0]|, |mazeData|))
    ensures choice == 3 ==> queue == CornerToCorner(|mazeData[0]|, |mazeData|)
  {
    if choice == 0 {
      queue := FillCenterOut(mazeData);
    } else if choice == 1 {
      queue := FillEdgesIn(mazeData);
    } else if choice == 2 {
      queue := FillMix(mazeData);
    } else {
      queue := FillCornerToCorner(mazeData);
    }
  }

  // ---------------------------------------------------------------------------
  // Revealing a queue a few cells per tick
  // ---------------------------------------------------------------------------

  /** How many cells one tick takes from a queue of `len` cells when it may take `n`. */
  function Taken(n: int, len: nat): nat
  {
    if n <= 0 then 0 else if n < len then n else len
  }

  /** The cells revealed by `k` ticks, in order, starting from `queue`. */
  function RevealedBy(queue: seq<Pos>, n: int, k: nat): seq<Pos>
  {
    if k == 0 then []
    else
      var t := Taken(n, |queue|);
      queue[..t] + RevealedBy(queue[t..], n, k - 1)
  }

  /**
   * `k` ticks reveal exactly the first `k * n` cells of the queue (all of
   * them once the queue is that short), front first.
   */
  lemma {:induction false} RevealedByIsPrefix(queue: seq<Pos>, n: nat, k: nat)
    ensures k * n <= |queue| ==> RevealedBy(queue, n, k) == queue[..k * n]
    ensures k * n > |queue| ==> RevealedBy(queue, n, k) == queue
  {
    if k > 0 {
      var t := Taken(n, |queue|);
      var rest := queue[t..];
      var m := (k - 1) * n;
      StepCount(k, n);
      RevealedByIsPrefix(rest, n, k - 1);
      assert RevealedBy(queue, n, k) == queue[..t] + RevealedBy(rest, n, k - 1);
      if n + m <= |queue| {
        assert queue[..n] + queue[n..][..m] == queue[..n + m];
      } else if n <= |queue| {
        assert queue[..n] + queue[n..] == queue;
      } else {
        assert rest == [] && queue[..t] == queue;
      }
    }
  }

  /** `k` ticks of `n` are one tick and `k - 1` more. */
  lemma StepCount(k: nat, n: nat)
    requires k > 0
    ensures k * n == n + (k - 1) * n && (k - 1) * n >= 0
  {
  }

  /**
   * When the queue lists each cell once, no cell is revealed twice, and a
   * positive batch size reveals the whole queue after `ceil(|queue| / n)` ticks.
   */
  lemma RevealsEachOnce(queue: seq<Pos>, n: nat, k: nat)
    requires Distinct(queue)
    ensures Distinct(RevealedBy(queue, n, k))
    ensures n > 0 && k * n >= |queue| ==> Members(RevealedBy(queue, n, k)) == Members(queue)
  {
    RevealedByIsPrefix(queue, n, k);
    if k * n <= |queue| {
      assert k * n == |queue| ==> queue[..k * n] == queue;
    }
  }

  /**
   * `MazeRevealer`: a queue of cells revealed `n` per tick. The timer is the
   * flag `ticking`; `onReveal` is replaced by returning the cells a tick
   * reveals. Ghost fields keep the queue the revealer started with and what it
   * has revealed so far.
   */
  class MazeRevealer {
    var queue: seq<Pos>
    var ticking: bool
    const n: int
    ghost var original: seq<Pos>
    ghost var revealed: seq<Pos>

    /** What has been revealed and what is still queued make up the starting queue. */
    ghost predicate Valid()
      reads this
    {
      original == revealed + queue
    }

    /** The source builds the queue with the chosen pattern; `n` defaults to 3. */
    constructor (initial: seq<Pos>, n: int := 3)
      ensures Valid()
      ensures queue == initial && original == initial && revealed == []
      ensures this.n == n && !ticking
    {
      queue := initial;
      this.n := n;
      ticking := false;
      original := initial;
      revealed := [];
    }

    /** `start`: stops any running timer, then starts a new one. */
    method Start()
      modifies this
      ensures ticking
      ensures queue == old(queue) && original == old(original) && revealed == old(revealed)
    {
      Stop();
      ticking := true;
    }

    /** `stop`: stops and discards the timer if there is one; a second call changes nothing. */
    method Stop()
      modifies this
      ensures !ticking
      ensures queue == old(queue) && original == old(original) && revealed == old(revealed)
    {
      if ticking {
        ticking := false;
      }
    }

    /**
     * `step`: reveals up to `n` cells from the front of the queue, in queue
     * order, and stops the timer once the queue is empty.
     */
    method Step() returns (batch: seq<Pos>)
      requires Valid()
      modifies this
      ensures Valid() && original == old(original)
      ensures batch == old(queue)[..Taken(n, |old(queue)|)]
      ensures queue == old(queue)[Taken(n, |old(queue)|)..]
      ensures revealed == old(revealed) + batch
      ensures ticking == (old(ticking) && queue != [])
    {
      batch := [];
      var i := 0;
      while i < n && |queue| > 0
        invariant 0 <= i && i == |batch| && i == Taken(i, |old(queue)|)
        invariant i <= n || i == 0
        invariant old(queue) == batch + queue
        invariant original == revealed + queue && revealed == old(revealed) + batch
        invariant ticking == old(ticking) && original == old(original)
        decreases |queue|
      {
        batch := batch + [queue[0]];
        revealed := revealed + [queue[0]];
        queue := queue[1..];
        i := i + 1;
      }
      assert old(queue)[..|batch|] == batch;
      if |queue| == 0 {
        Stop();
      }
    }
  }

  /** A tick of the revealer takes the next batch of `RevealedBy`. */
  lemma StepIsFirstBatch(queue: seq<Pos>, n: int)
    ensures RevealedBy(queue, n, 1) == queue[..Taken(n, |queue|)]
  {
    var t := Taken(n, |queue|);
    assert RevealedBy(queue[t..], n, 0) == [];
  }
}
