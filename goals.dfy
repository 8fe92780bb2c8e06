/**
 * The goals of the search and the distances between them (pacman.cc:202-212,
 * 237-246): every '.' and 'P' cell is a goal, numbered in row-major order,
 * and dist[i][j] is the maze distance from goal i to goal j, found by one
 * breadth-first search per goal.
 */
module Goals {
  import opened Grid
  import opened GridBfs

  /** A cell the search must visit or starts from. */
  predicate IsTarget(maze: seq<string>, x: Cell)
    requires IsGrid(maze) && InBounds(maze, x)
  {
    maze[x.r][x.c] == Goal || maze[x.r][x.c] == Start
  }

  /** a comes before b when the maze is read row by row. */
  predicate RowMajorBefore(a: Cell, b: Cell) {
    a.r < b.r || (a.r == b.r && a.c < b.c)
  }

  /** The goal list of a maze: its targets, each once, in row-major order. */
  ghost predicate IsGoalList(maze: seq<string>, goals: seq<Cell>)
    requires IsGrid(maze)
  {
    (forall i :: 0 <= i < |goals| ==> InBounds(maze, goals[i]) && IsTarget(maze, goals[i])) &&
    (forall i, j :: 0 <= i < j < |goals| ==> RowMajorBefore(goals[i], goals[j])) &&
    (forall r, c :: InGrid(maze, r, c) && IsTarget(maze, Cell(r, c)) ==> Cell(r, c) in goals)
  }

  /**
   * The goal enumeration of init: scan the maze row by row and record each
   * '.' or 'P' cell.
   */
  method EnumerateGoals(maze: seq<string>) returns (goals: seq<Cell>)
    requires IsGrid(maze)
    ensures IsGoalList(maze, goals)
  {
    goals := [];
    for r := 0 to NumRows(maze)
      invariant forall i :: 0 <= i < |goals| ==> InBounds(maze, goals[i]) && IsTarget(maze, goals[i])
      invariant forall i :: 0 <= i < |goals| ==> goals[i].r < r
      invariant forall i, j :: 0 <= i < j < |goals| ==> RowMajorBefore(goals[i], goals[j])
      invariant forall i, j :: 0 <= i < r && 0 <= j < NumCols(maze) && IsTarget(maze, Cell(i, j)) ==>
                  Cell(i, j) in goals
    {
      for c := 0 to NumCols(maze)
        invariant forall i :: 0 <= i < |goals| ==> InBounds(maze, goals[i]) && IsTarget(maze, goals[i])
        invariant forall i :: 0 <= i < |goals| ==> RowMajorBefore(goals[i], Cell(r, c))
        invariant forall i, j :: 0 <= i < j < |goals| ==> RowMajorBefore(goals[i], goals[j])
        invariant forall i, j :: 0 <= i < r && 0 <= j < NumCols(maze) && IsTarget(maze, Cell(i, j)) ==>
                    Cell(i, j) in goals
        invariant forall j :: 0 <= j < c && IsTarget(maze, Cell(r, j)) ==> Cell(r, j) in goals
      {
        if maze[r][c] == Goal || maze[r][c] == Start {
          goals := goals + [Cell(r, c)];
        }
      }
    }
  }

  /** Two goal lists of the same maze are the same list: the enumeration is determined by the maze. */
  lemma GoalListUnique(maze: seq<string>, a: seq<Cell>, b: seq<Cell>)
    requires IsGrid(maze) && IsGoalList(maze, a) && IsGoalList(maze, b)
    ensures a == b
  {
    forall x | x in a ensures x in b {
      var k :| 0 <= k < |a| && a[k] == x;
      assert InGrid(maze, x.r, x.c);
    }
    forall x | x in b ensures x in a {
      var k :| 0 <= k < |b| && b[k] == x;
      assert InGrid(maze, x.r, x.c);
    }
    SortedUnique(a, b);
  }

  ghost predicate StrictlySorted(s: seq<Cell>) {
    forall i, j :: 0 <= i < j < |s| ==> RowMajorBefore(s[i], s[j])
  }

  /** Two strictly row-major sorted lists with the same cells are equal. */
  lemma {:induction false} SortedUnique(a: seq<Cell>, b: seq<Cell>)
    requires StrictlySorted(a) && StrictlySorted(b)
    requires forall x :: x in a <==> x in b
    ensures a == b
    decreases |a|
  {
    assert a != [] ==> a[0] in b;
    assert b != [] ==> b[0] in a;
    if a != [] && b != [] {
      assert a[0] == b[0] by {
        assert a[0] in a && b[0] in b;
        var k :| 0 <= k < |a| && a[k] == b[0];
        var m :| 0 <= m < |b| && b[m] == a[0];
      }
      forall x ensures x in a[1..] <==> x in b[1..] {
        if x in a[1..] {
          var k :| 0 <= k < |a| - 1 && a[1..][k] == x;
          assert a[k + 1] == x && RowMajorBefore(a[0], x);
          assert x in a;
          var m :| 0 <= m < |b| && b[m] == x;
          assert m != 0 && b[1..][m - 1] == x;
        }
        if x in b[1..] {
          var k :| 0 <= k < |b| - 1 && b[1..][k] == x;
          assert b[k + 1] == x && RowMajorBefore(b[0], x);
          assert x in b;
          var m :| 0 <= m < |a| && a[m] == x;
          assert m != 0 && a[1..][m - 1] == x;
        }
      }
      SortedUnique(a[1..], b[1..]);
      assert a == [a[0]] + a[1..] && b == [b[0]] + b[1..];
    }
  }

  // ---------------------------------------------------------------------
  // The distance matrix.

  /** D[i][j] is the maze distance from goal i to goal j. */
  ghost predicate IsDistTable(maze: seq<string>, goals: seq<Cell>, D: seq<seq<int>>)
    requires IsGrid(maze)
  {
    |D| == |goals| && (forall i :: 0 <= i < |D| ==> |D[i]| == |goals|) &&
    forall i, j :: 0 <= i < |goals| && 0 <= j < |goals| ==> IsDistance(maze, goals[i], goals[j], D[i][j])
  }

  /**
   * calculate_dist: one breadth-first search from each goal fills row id of
   * dist with the steps of every goal. The steps grid is a scratch array of
   * the maze's size.
   */
  method CalculateDist(maze: seq<string>, goals: seq<Cell>) returns (dist: array2<int>)
    requires IsGrid(maze) && NumRows(maze) * NumCols(maze) < Inf
    requires forall i :: 0 <= i < |goals| ==> InBounds(maze, goals[i])
    ensures fresh(dist) && dist.Length0 == |goals| && dist.Length1 == |goals|
    ensures forall i, j :: 0 <= i < |goals| && 0 <= j < |goals| ==>
              IsDistance(maze, goals[i], goals[j], dist[i, j])
  {
    dist := new int[|goals|, |goals|];
    var steps := new int[NumRows(maze), NumCols(maze)];
    for id := 0 to |goals|
      invariant forall i, j :: 0 <= i < id && 0 <= j < |goals| ==> IsDistance(maze, goals[i], goals[j], dist[i, j])
    {
      BreadthFirstSearch(maze, steps, goals[id]);
      CopyRow(maze, goals, steps, dist, id);
    }
  }

  /** The inner loop of calculate_dist: row id of dist takes the steps of every goal. */
  method CopyRow(maze: seq<string>, goals: seq<Cell>, steps: array2<int>, dist: array2<int>, id: int)
    requires IsGrid(maze) && NumRows(maze) <= steps.Length0 && NumCols(maze) <= steps.Length1
    requires forall i :: 0 <= i < |goals| ==> InBounds(maze, goals[i])
    requires dist.Length0 == |goals| && dist.Length1 == |goals| && 0 <= id < |goals| && dist != steps
    requires forall r, c :: InGrid(maze, r, c) ==> IsDistance(maze, goals[id], Cell(r, c), steps[r, c])
    modifies dist
    ensures forall j :: 0 <= j < |goals| ==> IsDistance(maze, goals[id], goals[j], dist[id, j])
    ensures forall i, j :: 0 <= i < |goals| && 0 <= j < |goals| && i != id ==> dist[i, j] == old(dist[i, j])
  {
    for other := 0 to |goals|
      invariant forall j :: 0 <= j < other ==> dist[id, j] == steps[goals[j].r, goals[j].c]
      invariant forall i, j :: 0 <= i < |goals| && 0 <= j < |goals| && i != id ==> dist[i, j] == old(dist[i, j])
    {
      dist[id, other] := steps[goals[other].r, goals[other].c];
    }
    forall j | 0 <= j < |goals| ensures IsDistance(maze, goals[id], goals[j], dist[id, j]) {
      var x := goals[j];
      assert InGrid(maze, x.r, x.c) && Cell(x.r, x.c) == x;
    }
  }

  /** A goal is at distance 0 from itself: dist[i][i] == 0. */
  lemma DistDiagonal(maze: seq<string>, goals: seq<Cell>, D: seq<seq<int>>, i: int)
    requires IsGrid(maze) && IsGoalList(maze, goals) && IsDistTable(maze, goals, D)
    requires 0 <= i < |goals|
    ensures D[i][i] == 0
  {
    DistanceToSelf(maze, goals[i], D[i][i]);
  }

  /** Different goals are different cells, so they are at least one step apart. */
  lemma DistApart(maze: seq<string>, goals: seq<Cell>, D: seq<seq<int>>, i: int, j: int)
    requires IsGrid(maze) && IsGoalList(maze, goals) && IsDistTable(maze, goals, D)
    requires 0 <= i < |goals| && 0 <= j < |goals| && i != j
    ensures D[i][j] != 0
  {
    assert goals[i] != goals[j] by {
      if i < j {
        assert RowMajorBefore(goals[i], goals[j]);
      } else {
        assert RowMajorBefore(goals[j], goals[i]);
      }
    }
    assert IsDistance(maze, goals[i], goals[j], D[i][j]);
    forall p | Connects(maze, p, goals[i], goals[j]) ensures |p| != 1 {
      assert p[0] == goals[i] && p[|p| - 1] == goals[j];
    }
  }

  /** The distance table of a goal list is pinned down by the maze. */
  lemma DistTableUnique(maze: seq<string>, goals: seq<Cell>, D: seq<seq<int>>, D': seq<seq<int>>)
    requires IsGrid(maze) && IsDistTable(maze, goals, D) && IsDistTable(maze, goals, D')
    ensures D == D'
  {
    forall i | 0 <= i < |goals| ensures D[i] == D'[i] {
      forall j | 0 <= j < |goals| ensures D[i][j] == D'[i][j] {
        DistanceUnique(maze, goals[i], goals[j], D[i][j], D'[i][j]);
      }
    }
  }

  /** Goal cells are never walls, so the matrix is symmetric. */
  lemma DistSymmetric(maze: seq<string>, goals: seq<Cell>, D: seq<seq<int>>, i: int, j: int)
    requires IsGrid(maze) && IsGoalList(maze, goals) && IsDistTable(maze, goals, D)
    requires 0 <= i < |goals| && 0 <= j < |goals|
    ensures D[i][j] == D[j][i]
  {
    DistanceSymmetric(maze, goals[i], goals[j], D[i][j], D[j][i]);
  }

  /** Between reachable goals the matrix obeys the triangle inequality. */
  lemma DistTriangle(maze: seq<string>, goals: seq<Cell>, D: seq<seq<int>>, i: int, j: int, k: int)
    requires IsGrid(maze) && IsDistTable(maze, goals, D)
    requires 0 <= i < |goals| && 0 <= j < |goals| && 0 <= k < |goals|
    requires D[i][j] < Inf && D[j][k] < Inf
    ensures D[i][k] <= D[i][j] + D[j][k]
  {
    assert IsDistance(maze, goals[i], goals[j], D[i][j]);
    assert IsDistance(maze, goals[j], goals[k], D[j][k]);
    DistanceTriangle(maze, goals[i], goals[j], goals[k], D[i][j], D[j][k], D[i][k]);
  }
}
