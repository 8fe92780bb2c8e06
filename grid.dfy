/**
 * The maze (pacman.cc:18-29, 97-100, 164-166): rows of characters, all as
 * long as the first one; '%' is a wall. A cell moves to one of its four
 * neighbours in the order of `dire`. A path is a run of cells in which every
 * cell after the first is an open neighbour of the one before; the distance
 * from a to b is the fewest moves of such a run, or `inf` when there is none.
 */
module Grid {

  const Wall: char := '%'
  const Start: char := 'P'
  const Goal: char := '.'

  /** `inf`, the sentinel for "not reached" (0x7fffffff). */
  const Inf: int := 0x7fffffff

  datatype Cell = Cell(r: int, c: int)

  /** An already parsed maze: at least one row, all rows as long as the first. */
  predicate IsGrid(maze: seq<string>) {
    |maze| > 0 && forall r :: 0 <= r < |maze| ==> |maze[r]| == |maze[0]|
  }

  function NumRows(maze: seq<string>): int {
    |maze|
  }

  function NumCols(maze: seq<string>): int
    requires |maze| > 0
  {
    |maze[0]|
  }

  /** outside(r, c) */
  predicate Outside(maze: seq<string>, r: int, c: int)
    requires IsGrid(maze)
  {
    r < 0 || c < 0 || r >= NumRows(maze) || c >= NumCols(maze)
  }

  predicate InBounds(maze: seq<string>, x: Cell)
    requires IsGrid(maze)
  {
    !Outside(maze, x.r, x.c)
  }

  predicate IsWall(maze: seq<string>, x: Cell)
    requires IsGrid(maze) && InBounds(maze, x)
  {
    maze[x.r][x.c] == Wall
  }

  /** A cell a path may enter: inside the maze and not a wall. */
  predicate Open(maze: seq<string>, x: Cell)
    requires IsGrid(maze)
  {
    InBounds(maze, x) && !IsWall(maze, x)
  }

  /** dire[4][2] = {{1, 0}, {0, 1}, {-1, 0}, {0, -1}} */
  const DirRow: seq<int> := [1, 0, -1, 0]
  const DirCol: seq<int> := [0, 1, 0, -1]

  function Step(x: Cell, d: int): Cell
    requires 0 <= d < 4
  {
    Cell(x.r + DirRow[d], x.c + DirCol[d])
  }

  predicate Adjacent(x: Cell, y: Cell) {
    (x.r == y.r && (y.c == x.c + 1 || y.c == x.c - 1)) ||
    (x.c == y.c && (y.r == x.r + 1 || y.r == x.r - 1))
  }

  /** The direction that leads from x to an adjacent y. */
  function DirTo(x: Cell, y: Cell): (d: int)
    requires Adjacent(x, y)
    ensures 0 <= d < 4 && Step(x, d) == y
  {
    if y.r == x.r + 1 then 0
    else if y.c == x.c + 1 then 1
    else if y.r == x.r - 1 then 2
    else 3
  }

  lemma StepAdjacent(x: Cell, d: int)
    requires 0 <= d < 4
    ensures Adjacent(x, Step(x, d)) && Adjacent(Step(x, d), x)
  {}

  ghost predicate IsPath(maze: seq<string>, p: seq<Cell>)
    requires IsGrid(maze)
  {
    |p| > 0 && InBounds(maze, p[0]) &&
    forall i :: 0 < i < |p| ==> Open(maze, p[i]) && Adjacent(p[i - 1], p[i])
  }

  ghost predicate Connects(maze: seq<string>, p: seq<Cell>, a: Cell, b: Cell)
    requires IsGrid(maze)
  {
    IsPath(maze, p) && p[0] == a && p[|p| - 1] == b
  }

  /** k is the fewest moves from a to b, or Inf and no path leads from a to b. */
  ghost predicate IsDistance(maze: seq<string>, a: Cell, b: Cell, k: int)
    requires IsGrid(maze)
  {
    if k == Inf then
      forall p :: !Connects(maze, p, a, b)
    else
      0 <= k < Inf &&
      (exists p :: Connects(maze, p, a, b) && |p| == k + 1) &&
      (forall p :: Connects(maze, p, a, b) ==> k + 1 <= |p|)
  }

  function Reverse(p: seq<Cell>): (q: seq<Cell>)
    ensures |q| == |p| && forall i :: 0 <= i < |p| ==> q[i] == p[|p| - 1 - i]
  {
    if p == [] then [] else Reverse(p[1..]) + [p[0]]
  }

  lemma ReversePath(maze: seq<string>, p: seq<Cell>, a: Cell, b: Cell)
    requires IsGrid(maze) && Connects(maze, p, a, b) && Open(maze, a)
    ensures Connects(maze, Reverse(p), b, a)
  {
    var q := Reverse(p);
    forall i | 0 < i < |q| ensures Open(maze, q[i]) && Adjacent(q[i - 1], q[i]) {
      var k := |p| - 1 - i;
      assert q[i] == p[k] && q[i - 1] == p[k + 1];
      assert Adjacent(p[k], p[k + 1]);
    }
  }

  lemma ConcatPath(maze: seq<string>, p: seq<Cell>, q: seq<Cell>, a: Cell, b: Cell, c: Cell)
    requires IsGrid(maze) && Connects(maze, p, a, b) && Connects(maze, q, b, c)
    ensures Connects(maze, p + q[1..], a, c) && |p + q[1..]| == |p| + |q| - 1
  {
    var r := p + q[1..];
    forall i | 0 < i < |r| ensures Open(maze, r[i]) && Adjacent(r[i - 1], r[i]) {
      if i >= |p| {
        assert r[i] == q[i - |p| + 1];
        assert r[i - 1] == q[i - |p|];
      }
    }
  }

  /** The distance predicate pins its value down. */
  lemma DistanceUnique(maze: seq<string>, a: Cell, b: Cell, k1: int, k2: int)
    requires IsGrid(maze) && IsDistance(maze, a, b, k1) && IsDistance(maze, a, b, k2)
    ensures k1 == k2
  {
    if k1 != Inf && k2 != Inf {
      var p1 :| Connects(maze, p1, a, b) && |p1| == k1 + 1;
      var p2 :| Connects(maze, p2, a, b) && |p2| == k2 + 1;
      assert k2 + 1 <= |p1| && k1 + 1 <= |p2|;
    }
  }

  /** Distances between open cells are symmetric. */
  lemma DistanceSymmetric(maze: seq<string>, a: Cell, b: Cell, k1: int, k2: int)
    requires IsGrid(maze) && Open(maze, a) && Open(maze, b)
    requires IsDistance(maze, a, b, k1) && IsDistance(maze, b, a, k2)
    ensures k1 == k2
  {
    if k1 != Inf {
      var p :| Connects(maze, p, a, b) && |p| == k1 + 1;
      ReversePath(maze, p, a, b);
      assert Connects(maze, Reverse(p), b, a);
    }
    if k2 != Inf {
      var p :| Connects(maze, p, b, a) && |p| == k2 + 1;
      ReversePath(maze, p, b, a);
      assert Connects(maze, Reverse(p), a, b);
    }
  }

  /** Going through b is never shorter than the distance from a to c. */
  lemma DistanceTriangle(maze: seq<string>, a: Cell, b: Cell, c: Cell, x: int, y: int, z: int)
    requires IsGrid(maze)
    requires IsDistance(maze, a, b, x) && IsDistance(maze, b, c, y) && IsDistance(maze, a, c, z)
    requires x != Inf && y != Inf
    ensures z != Inf && z <= x + y
  {
    var p :| Connects(maze, p, a, b) && |p| == x + 1;
    var q :| Connects(maze, q, b, c) && |q| == y + 1;
    ConcatPath(maze, p, q, a, b, c);
    assert Connects(maze, p + q[1..], a, c);
  }

  /** A cell is at distance 0 from itself. */
  lemma DistanceToSelf(maze: seq<string>, a: Cell, k: int)
    requires IsGrid(maze) && InBounds(maze, a) && IsDistance(maze, a, a, k)
    ensures k == 0
  {
    assert Connects(maze, [a], a, a);
  }

  /** A wall other than the starting cell is never reached. */
  lemma WallUnreached(maze: seq<string>, a: Cell, b: Cell, k: int)
    requires IsGrid(maze) && InBounds(maze, b) && IsWall(maze, b) && b != a
    requires IsDistance(maze, a, b, k)
    ensures k == Inf
  {
  }
}
