/**
 * The program of pacman.cc as a whole (init and work, pacman.cc:214-336,
 * 416-421): number the '.' and 'P' cells, measure the distances between
 * them, build the start state from the 'P' goal and run the search. The
 * file parsing and the printed report of init and work are not modelled;
 * the maze comes in parsed.
 */
module Pacman {
  import opened Bitset
  import opened Grid
  import opened GridBfs
  import opened Goals
  import opened SearchState
  import opened Prim
  import opened Tours
  import opened Search

  /** Goal i of the list is the 'P' cell. */
  predicate IsStartGoal(maze: seq<string>, goals: seq<Cell>, i: int)
    requires IsGrid(maze) && 0 <= i < |goals| && InBounds(maze, goals[i])
  {
    maze[goals[i].r][goals[i].c] == Start
  }

  predicate AllInBounds(maze: seq<string>, goals: seq<Cell>)
    requires IsGrid(maze)
  {
    forall i :: 0 <= i < |goals| ==> InBounds(maze, goals[i])
  }

  /** The goals below k that are not the 'P' cell. */
  ghost function Others(maze: seq<string>, goals: seq<Cell>, k: int): set<int>
    requires IsGrid(maze) && AllInBounds(maze, goals) && k <= |goals|
  {
    set i | 0 <= i < k && !IsStartGoal(maze, goals, i)
  }

  /**
   * The start state of work: the loop over the goals puts the 'P' goal in
   * curr_ and every other goal in bits_. With several 'P' cells the last
   * one is curr_ and the others are in neither; with none, curr_ is never
   * written, which the precondition excludes.
   */
  method StartState(maze: seq<string>, goals: seq<Cell>) returns (start: Status)
    requires IsGrid(maze) && AllInBounds(maze, goals) && |goals| <= Capacity
    requires exists i :: 0 <= i < |goals| && IsStartGoal(maze, goals, i)
    ensures 0 <= start.curr < |goals| && IsStartGoal(maze, goals, start.curr)
    ensures forall j :: start.curr < j < |goals| ==> !IsStartGoal(maze, goals, j)
    ensures Members(start.bits) == Others(maze, goals, |goals|)
  {
    start := Status(0, NoBits);
    EmptyIffNoMembers(NoBits);
    ghost var found := false;
    for id := 0 to |goals|
      invariant Members(start.bits) == Others(maze, goals, id)
      invariant found ==> 0 <= start.curr < id && IsStartGoal(maze, goals, start.curr)
      invariant found ==> forall j :: start.curr < j < id ==> !IsStartGoal(maze, goals, j)
      invariant !found ==> forall j :: 0 <= j < id ==> !IsStartGoal(maze, goals, j)
    {
      if maze[goals[id].r][goals[id].c] == Start {
        start := start.(curr := id);
        found := true;
      } else {
        SetBitMembers(start.bits, id, true);
        start := start.(bits := SetBit(start.bits, id, true));
      }
    }
  }

  /** The start's subset leaves out at least its own goal, so it has fewer members than there are goals. */
  lemma OthersFewer(maze: seq<string>, goals: seq<Cell>, p: int)
    requires IsGrid(maze) && AllInBounds(maze, goals) && 0 <= p < |goals| && IsStartGoal(maze, goals, p)
    ensures |Others(maze, goals, |goals|)| < |goals|
  {
    var s := Others(maze, goals, |goals|);
    SubsetOfRange(s + {p}, |goals|);
    assert p !in s;
  }

  /** dist as rows: row i holds dist[i][j] for every goal j. */
  method Rows(dist: array2<int>) returns (D: seq<seq<int>>)
    requires dist.Length0 == dist.Length1
    ensures |D| == dist.Length0
    ensures forall i :: 0 <= i < |D| ==> |D[i]| == dist.Length1
    ensures forall i, j :: 0 <= i < |D| && 0 <= j < dist.Length1 ==> D[i][j] == dist[i, j]
  {
    D := [];
    for i := 0 to dist.Length0
      invariant |D| == i
      invariant forall k :: 0 <= k < i ==> |D[k]| == dist.Length1
      invariant forall k, j :: 0 <= k < i && 0 <= j < dist.Length1 ==> D[k][j] == dist[k, j]
    {
      var row := [];
      for j := 0 to dist.Length1
        invariant |row| == j
        invariant forall m :: 0 <= m < j ==> row[m] == dist[i, m]
      {
        row := row + [dist[i, j]];
      }
      D := D + [row];
    }
  }

  /**
   * A tour of the maze: it starts on a 'P' goal, visits every other goal
   * once, and its length in D is cost.
   */
  ghost predicate MazeTour(maze: seq<string>, goals: seq<Cell>, D: seq<seq<int>>, t: seq<int>, cost: int)
    requires IsGrid(maze) && AllInBounds(maze, goals) && IsFiniteMatrix(D, |goals|)
  {
    |t| >= 1 && OnGoals(|goals|, t) && IsStartGoal(maze, goals, t[0]) &&
    Distinct(t) && Visited(t) == Others(maze, goals, |goals|) && TourCost(D, |goals|, t) == cost
  }

  /** What a run of the program on a maze comes to. */
  datatype Run =
    | Unsupported        // no goal, more than 256, no 'P', a maze of 2^31 cells or more, or a goal out of reach
    | Ran(goals: seq<Cell>, outcome: Outcome)

  /** Whether one of the goals is the 'P' cell. */
  method HasStart(maze: seq<string>, goals: seq<Cell>) returns (found: bool)
    requires IsGrid(maze) && AllInBounds(maze, goals)
    ensures found <==> exists i :: 0 <= i < |goals| && IsStartGoal(maze, goals, i)
  {
    for p := 0 to |goals|
      invariant forall j :: 0 <= j < p ==> !IsStartGoal(maze, goals, j)
    {
      if maze[goals[p].r][goals[p].c] == Start {
        assert IsStartGoal(maze, goals, p);
        return true;
      }
    }
    return false;
  }

  /**
   * calculate_dist, as rows, and whether every distance is finite: the
   * search adds distances in 32-bit ints and is only sound when no goal is
   * out of reach of another.
   */
  method Distances(maze: seq<string>, goals: seq<Cell>) returns (D: seq<seq<int>>, finite: bool)
    requires IsGrid(maze) && NumRows(maze) * NumCols(maze) < Inf && AllInBounds(maze, goals)
    ensures IsDistTable(maze, goals, D)
    ensures finite <==> IsFiniteMatrix(D, |goals|)
  {
    var table := CalculateDist(maze, goals);
    D := Rows(table);
    assert IsDistTable(maze, goals, D);
    finite := AllFinite(D, |goals|);
    if finite {
      forall a, b | 0 <= a < |goals| && 0 <= b < |goals| ensures 0 <= D[a][b] < Inf {
        assert IsDistance(maze, goals[a], goals[b], D[a][b]);
      }
    }
  }

  /** Whether no entry of the n by n table D is inf. */
  method AllFinite(D: seq<seq<int>>, n: int) returns (finite: bool)
    requires |D| == n && forall i :: 0 <= i < n ==> |D[i]| == n
    ensures finite <==> forall a, b :: 0 <= a < n && 0 <= b < n ==> D[a][b] != Inf
  {
    for i := 0 to n
      invariant forall a, b :: 0 <= a < i && 0 <= b < n ==> D[a][b] != Inf
    {
      for j := 0 to n
        invariant forall b :: 0 <= b < j ==> D[i][b] != Inf
      {
        if D[i][j] == Inf {
          return false;
        }
      }
    }
    return true;
  }

  /**
   * work on the goals of a maze and their distances: a solution is the
   * length of a tour of the maze, and the open list never runs empty, since
   * different goals are different cells and the start's subset holds goals
   * of the list only.
   */
  method SearchGoals(maze: seq<string>, goals: seq<Cell>, D: seq<seq<int>>) returns (outcome: Outcome)
    requires IsGrid(maze) && IsGoalList(maze, goals) && AllInBounds(maze, goals) && IsDistTable(maze, goals, D)
    requires 0 < |goals| <= Capacity && IsFiniteMatrix(D, |goals|)
    requires exists i :: 0 <= i < |goals| && IsStartGoal(maze, goals, i)
    ensures outcome.Solved? ==> exists t :: MazeTour(maze, goals, D, t, outcome.cost)
    ensures !outcome.Exhausted?
  {
    var n := |goals|;
    var searcher := new Searcher(n, D);
    var start := StartState(maze, goals);
    OthersFewer(maze, goals, start.curr);
    forall i, j | 0 <= i < n && 0 <= j < n && i != j ensures D[i][j] > 0 {
      DistApart(maze, goals, D, i, j);
    }
    outcome := searcher.Work(start);
    if outcome.Solved? {
      ghost var t :| FullTour(n, start, t) && TourCost(D, n, t) == outcome.cost;
      assert MazeTour(maze, goals, D, t, outcome.cost);
    }
  }

  /**
   * The mazes the program handles, given their goal list and distance
   * table: 1 to 256 goals, one of them the 'P' cell, and no goal out of
   * reach of another.
   */
  ghost predicate Handled(maze: seq<string>, goals: seq<Cell>, D: seq<seq<int>>)
    requires IsGrid(maze) && AllInBounds(maze, goals)
  {
    0 < |goals| <= Capacity && (exists i :: 0 <= i < |goals| && IsStartGoal(maze, goals, i)) &&
    IsFiniteMatrix(D, |goals|)
  }

  /**
   * init, then work. The mazes the program cannot handle are reported as
   * Unsupported instead of running into undefined behaviour or overflow.
   * A solution is the length of a tour of the maze in its distance table.
   */
  method Solve(maze: seq<string>) returns (run: Run)
    requires IsGrid(maze)
    ensures run.Ran? ==> IsGoalList(maze, run.goals) && AllInBounds(maze, run.goals)
    ensures run.Ran? && run.outcome.Solved? ==>
              exists D, t :: IsDistTable(maze, run.goals, D) && IsFiniteMatrix(D, |run.goals|) &&
                MazeTour(maze, run.goals, D, t, run.outcome.cost)
    ensures run.Ran? ==> !run.outcome.Exhausted?
    ensures forall goals, D :: IsGoalList(maze, goals) && IsDistTable(maze, goals, D) ==>
              (run.Ran? <==> NumRows(maze) * NumCols(maze) < Inf && Handled(maze, goals, D))
  {
    if NumRows(maze) * NumCols(maze) >= Inf {
      return Unsupported;
    }
    var goals := EnumerateGoals(maze);
    var found := HasStart(maze, goals);
    if |goals| == 0 || |goals| > Capacity || !found {
      forall G, D | IsGoalList(maze, G) && IsDistTable(maze, G, D) ensures !Handled(maze, G, D) {
        GoalListUnique(maze, G, goals);
      }
      return Unsupported;
    }
    var D, finite := Distances(maze, goals);
    if !finite {
      forall G, D' | IsGoalList(maze, G) && IsDistTable(maze, G, D') ensures !Handled(maze, G, D') {
        GoalListUnique(maze, G, goals);
        DistTableUnique(maze, goals, D, D');
      }
      return Unsupported;
    }
    var outcome := SearchGoals(maze, goals, D);
    run := Ran(goals, outcome);
    forall G, D' | IsGoalList(maze, G) && IsDistTable(maze, G, D') ensures Handled(maze, G, D') {
      GoalListUnique(maze, G, goals);
      DistTableUnique(maze, goals, D, D');
    }
  }
}
