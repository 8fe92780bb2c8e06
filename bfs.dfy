/**
 * Breadth-first search over the maze (pacman.cc:164-200).
 *
 * breadth_first_search proves that every cell of the maze ends with its
 * distance from the start cell in the sense of Grid.IsDistance. The proof
 * reasons about a ghost copy of the steps grid (a Table) and goes through
 * three local conditions on it (Settled): the start holds 0; every other
 * reached cell is open and one more than a reached neighbour (its parent);
 * and every open neighbour of a reached cell is reached, at most one step
 * later.
 */
module GridBfs {
  import opened Grid

  /** Values per cell of the maze, row by row. */
  type Table = seq<seq<int>>

  predicate InGrid(maze: seq<string>, r: int, c: int)
    requires IsGrid(maze)
  {
    0 <= r < NumRows(maze) && 0 <= c < NumCols(maze)
  }

  /** The table has one value per cell of the maze. */
  predicate Shaped(maze: seq<string>, g: Table) {
    IsGrid(maze) && |g| == NumRows(maze) &&
    forall r :: 0 <= r < |g| ==> |g[r]| == NumCols(maze)
  }

  /** The table with cell x set to k. */
  function Put(maze: seq<string>, g: Table, x: Cell, k: int): (h: Table)
    requires Shaped(maze, g) && InBounds(maze, x)
    ensures Shaped(maze, h)
    ensures forall r, c :: InGrid(maze, r, c) ==> h[r][c] == if Cell(r, c) == x then k else g[r][c]
  {
    g[x.r := g[x.r][x.c := k]]
  }

  /** If the d-th neighbour of x is open, it is reached at most one step after x. */
  ghost predicate NeighbourDone(maze: seq<string>, g: Table, x: Cell, d: int)
    requires Shaped(maze, g) && InBounds(maze, x) && 0 <= d < 4
  {
    Open(maze, Step(x, d)) ==>
      g[Step(x, d).r][Step(x, d).c] < Inf &&
      g[Step(x, d).r][Step(x, d).c] <= g[x.r][x.c] + 1
  }

  /** Every open neighbour of a reached cell x is reached, at most one step after x. */
  ghost predicate Relaxed(maze: seq<string>, g: Table, x: Cell)
    requires Shaped(maze, g) && InBounds(maze, x)
  {
    g[x.r][x.c] < Inf ==> forall d :: 0 <= d < 4 ==> NeighbourDone(maze, g, x, d)
  }

  /** The reached cell x is open and one step after its parent. */
  ghost predicate ParentLink(maze: seq<string>, g: Table, parent: map<Cell, Cell>, x: Cell)
    requires Shaped(maze, g) && InBounds(maze, x)
  {
    Open(maze, x) && x in parent && InBounds(maze, parent[x]) && Adjacent(parent[x], x) &&
    g[parent[x].r][parent[x].c] + 1 == g[x.r][x.c]
  }

  /** Every value is Inf or a count in 0 .. Inf - 1. */
  ghost predicate ValuesInRange(maze: seq<string>, g: Table)
    requires Shaped(maze, g)
  {
    forall r, c :: InGrid(maze, r, c) ==> 0 <= g[r][c] <= Inf
  }

  /** Every reached cell other than the start has a parent link. */
  ghost predicate Linked(maze: seq<string>, g: Table, start: Cell, parent: map<Cell, Cell>)
    requires Shaped(maze, g)
  {
    forall r, c :: InGrid(maze, r, c) && g[r][c] < Inf && Cell(r, c) != start ==>
      ParentLink(maze, g, parent, Cell(r, c))
  }

  ghost predicate AllRelaxed(maze: seq<string>, g: Table)
    requires Shaped(maze, g)
  {
    forall r, c :: InGrid(maze, r, c) ==> Relaxed(maze, g, Cell(r, c))
  }

  ghost predicate Settled(maze: seq<string>, g: Table, start: Cell, parent: map<Cell, Cell>)
    requires Shaped(maze, g) && InBounds(maze, start)
  {
    g[start.r][start.c] == 0 && ValuesInRange(maze, g) &&
    Linked(maze, g, start, parent) && AllRelaxed(maze, g)
  }

  /** Following parents from a reached cell gives a path from the start of exactly its value. */
  lemma {:induction false} PathTo(maze: seq<string>, g: Table, start: Cell,
                                  parent: map<Cell, Cell>, x: Cell) returns (p: seq<Cell>)
    requires Shaped(maze, g) && InBounds(maze, start) && g[start.r][start.c] == 0
    requires ValuesInRange(maze, g) && Linked(maze, g, start, parent)
    requires InBounds(maze, x) && g[x.r][x.c] < Inf
    ensures Connects(maze, p, start, x) && |p| == g[x.r][x.c] + 1
    decreases g[x.r][x.c]
  {
    if x == start {
      p := [start];
    } else {
      assert InGrid(maze, x.r, x.c);
      assert ParentLink(maze, g, parent, Cell(x.r, x.c));
      var y := parent[x];
      assert InGrid(maze, y.r, y.c);
      var q := PathTo(maze, g, start, parent, y);
      p := q + [x];
      forall i | 0 < i < |p|
        ensures Open(maze, p[i]) && Adjacent(p[i - 1], p[i])
      {
        if i < |p| - 1 {
          assert p[i] == q[i] && p[i - 1] == q[i - 1];
        }
      }
    }
  }

  /** No path from the start reaches its i-th cell before the table says. */
  lemma {:induction false} PathLowerBound(maze: seq<string>, g: Table, start: Cell, p: seq<Cell>, i: int)
    requires Shaped(maze, g) && InBounds(maze, start) && g[start.r][start.c] == 0
    requires AllRelaxed(maze, g)
    requires IsPath(maze, p) && p[0] == start && 0 <= i < |p|
    ensures InBounds(maze, p[i]) && g[p[i].r][p[i].c] < Inf && g[p[i].r][p[i].c] <= i
    decreases i
  {
    if i > 0 {
      PathLowerBound(maze, g, start, p, i - 1);
      var x := p[i - 1];
      var d := DirTo(x, p[i]);
      assert InGrid(maze, x.r, x.c);
      assert Relaxed(maze, g, Cell(x.r, x.c));
      assert NeighbourDone(maze, g, x, d);
      assert Open(maze, Step(x, d));
    }
  }

  /** The local conditions make every cell's value its distance from the start. */
  lemma SettledDistance(maze: seq<string>, g: Table, start: Cell, parent: map<Cell, Cell>, x: Cell)
    requires Shaped(maze, g) && InBounds(maze, start) && Settled(maze, g, start, parent)
    requires InBounds(maze, x)
    ensures IsDistance(maze, start, x, g[x.r][x.c])
  {
    var k := g[x.r][x.c];
    assert 0 <= k <= Inf by {
      assert InGrid(maze, x.r, x.c);
    }
    forall p | Connects(maze, p, start, x)
      ensures k < Inf && k + 1 <= |p|
    {
      PathLowerBound(maze, g, start, p, |p| - 1);
    }
    if k < Inf {
      var p := PathTo(maze, g, start, parent, x);
    }
  }

  // ---------------------------------------------------------------------
  // Counting the cells that were reached: each one has a distinct code in
  // 0 .. rows * cols - 1, so the queue never holds more than the maze has.

  function Code(maze: seq<string>, x: Cell): int
    requires IsGrid(maze)
  {
    x.r * NumCols(maze) + x.c
  }

  lemma MulMono(a: int, b: int, c: int)
    requires 0 <= a <= b && 0 <= c
    ensures a * c <= b * c
  {
  }

  lemma CodeBound(maze: seq<string>, x: Cell)
    requires IsGrid(maze) && InBounds(maze, x)
    ensures 0 <= Code(maze, x) < NumRows(maze) * NumCols(maze)
  {
    MulMono(x.r, NumRows(maze) - 1, NumCols(maze));
  }

  lemma CodeInjective(maze: seq<string>, x: Cell, y: Cell)
    requires IsGrid(maze) && InBounds(maze, x) && InBounds(maze, y) && x != y
    ensures Code(maze, x) != Code(maze, y)
  {
    var C := NumCols(maze);
    if x.r < y.r {
      MulMono(x.r + 1, y.r, C);
    } else if y.r < x.r {
      MulMono(y.r + 1, x.r, C);
    }
  }

  /** The integers 0 .. n - 1. */
  function Range(n: nat): (s: set<int>)
    ensures forall k :: k in s <==> 0 <= k < n
  {
    if n == 0 then {} else Range(n - 1) + {n - 1}
  }

  lemma {:induction false} RangeSize(n: nat)
    ensures |Range(n)| == n
  {
    if n > 0 {
      RangeSize(n - 1);
    }
  }

  lemma SubsetOfRange(s: set<int>, n: nat)
    requires forall k :: k in s ==> 0 <= k < n
    ensures |s| <= n
  {
    RangeSize(n);
    assert s <= Range(n);
    assert |Range(n)| == |s| + |Range(n) - s|;
  }

  // ---------------------------------------------------------------------
  // The invariant of the search loop, in parts. qs is the filled part of the
  // queue (slots 0 .. tail).

  /** The queue holds reached cells in non-decreasing order of their values. */
  ghost predicate QueueShape(maze: seq<string>, g: Table, qs: seq<Cell>)
    requires Shaped(maze, g)
  {
    |qs| > 0 &&
    (forall i :: 0 <= i < |qs| ==> InBounds(maze, qs[i]) && g[qs[i].r][qs[i].c] < Inf) &&
    (forall i :: 0 < i < |qs| ==> g[qs[i - 1].r][qs[i - 1].c] <= g[qs[i].r][qs[i].c]) &&
    g[qs[|qs| - 1].r][qs[|qs| - 1].c] < |qs|
  }

  /** The value of the last cell queued. */
  function Last(maze: seq<string>, g: Table, qs: seq<Cell>): int
    requires Shaped(maze, g) && QueueShape(maze, g, qs)
  {
    g[qs[|qs| - 1].r][qs[|qs| - 1].c]
  }

  /** Values lie in 0 .. Inf, and no reached cell is beyond the last one queued. */
  ghost predicate Bounded(maze: seq<string>, g: Table, qs: seq<Cell>)
    requires Shaped(maze, g) && QueueShape(maze, g, qs)
  {
    forall r, c :: InGrid(maze, r, c) ==>
      0 <= g[r][c] <= Inf && (g[r][c] < Inf ==> g[r][c] <= Last(maze, g, qs))
  }

  /** Every reached cell sits in the queue, at slot pos[x]. */
  ghost predicate Positioned(maze: seq<string>, g: Table, qs: seq<Cell>, pos: map<Cell, int>)
    requires Shaped(maze, g)
  {
    forall r, c :: InGrid(maze, r, c) && g[r][c] < Inf ==>
      Cell(r, c) in pos && 0 <= pos[Cell(r, c)] < |qs| && qs[pos[Cell(r, c)]] == Cell(r, c)
  }

  /** seen holds the codes of exactly the reached cells, one per queued cell. */
  ghost predicate Counted(maze: seq<string>, g: Table, qs: seq<Cell>, seen: set<int>)
    requires Shaped(maze, g)
  {
    |seen| == |qs| &&
    (forall k :: k in seen ==> 0 <= k < NumRows(maze) * NumCols(maze)) &&
    (forall r, c :: InGrid(maze, r, c) ==> (Code(maze, Cell(r, c)) in seen <==> g[r][c] < Inf))
  }

  ghost predicate Searching(maze: seq<string>, g: Table, start: Cell, qs: seq<Cell>,
                            seen: set<int>, pos: map<Cell, int>, parent: map<Cell, Cell>)
    requires Shaped(maze, g) && InBounds(maze, start)
  {
    g[start.r][start.c] == 0 &&
    QueueShape(maze, g, qs) && Bounded(maze, g, qs) && Positioned(maze, g, qs, pos) &&
    Counted(maze, g, qs, seen) && Linked(maze, g, start, parent)
  }

  /** The queue slots before head have been processed. */
  ghost predicate RelaxedBefore(maze: seq<string>, g: Table, qs: seq<Cell>, head: int)
    requires Shaped(maze, g)
  {
    head <= |qs| &&
    forall i :: 0 <= i < head ==> InBounds(maze, qs[i]) && Relaxed(maze, g, qs[i])
  }

  // ---------------------------------------------------------------------
  // The one change the search makes: the unreached open cell next gets value
  // v + 1 and is appended to the queue. Each part of the invariant survives.

  lemma KeepQueueShape(maze: seq<string>, g: Table, qs: seq<Cell>, next: Cell, v: int)
    requires Shaped(maze, g) && QueueShape(maze, g, qs)
    requires InBounds(maze, next) && g[next.r][next.c] == Inf
    requires v <= Last(maze, g, qs) <= v + 1 && v + 1 < Inf
    ensures QueueShape(maze, Put(maze, g, next, v + 1), qs + [next])
  {
    var h, qs' := Put(maze, g, next, v + 1), qs + [next];
    forall i | 0 <= i < |qs|
      ensures qs'[i] == qs[i] && h[qs[i].r][qs[i].c] == g[qs[i].r][qs[i].c]
    {
      assert InGrid(maze, qs[i].r, qs[i].c);
    }
    assert InGrid(maze, next.r, next.c);
  }

  lemma KeepBounded(maze: seq<string>, g: Table, qs: seq<Cell>, next: Cell, v: int)
    requires Shaped(maze, g) && QueueShape(maze, g, qs) && Bounded(maze, g, qs)
    requires InBounds(maze, next) && g[next.r][next.c] == Inf
    requires QueueShape(maze, Put(maze, g, next, v + 1), qs + [next])
    requires Last(maze, g, qs) <= v + 1 && v + 1 < Inf
    ensures Bounded(maze, Put(maze, g, next, v + 1), qs + [next])
  {
    var h, qs' := Put(maze, g, next, v + 1), qs + [next];
    assert Last(maze, h, qs') == v + 1 by {
      assert InGrid(maze, next.r, next.c);
    }
  }

  lemma KeepPositioned(maze: seq<string>, g: Table, qs: seq<Cell>, pos: map<Cell, int>, next: Cell, v: int)
    requires Shaped(maze, g) && Positioned(maze, g, qs, pos)
    requires InBounds(maze, next)
    ensures Positioned(maze, Put(maze, g, next, v + 1), qs + [next], pos[next := |qs|])
  {
  }

  lemma KeepCounted(maze: seq<string>, g: Table, qs: seq<Cell>, seen: set<int>, next: Cell, v: int)
    requires Shaped(maze, g) && Counted(maze, g, qs, seen)
    requires InBounds(maze, next) && g[next.r][next.c] == Inf && v + 1 < Inf
    ensures Counted(maze, Put(maze, g, next, v + 1), qs + [next], seen + {Code(maze, next)})
  {
    assert InGrid(maze, next.r, next.c);
    CodeBound(maze, next);
    forall r, c | InGrid(maze, r, c) && Cell(r, c) != next
      ensures Code(maze, Cell(r, c)) != Code(maze, next)
    {
      CodeInjective(maze, Cell(r, c), next);
    }
  }

  lemma KeepLinked(maze: seq<string>, g: Table, start: Cell, parent: map<Cell, Cell>,
                   curr: Cell, next: Cell, v: int)
    requires Shaped(maze, g) && Linked(maze, g, start, parent) && ValuesInRange(maze, g)
    requires InBounds(maze, curr) && g[curr.r][curr.c] == v && v < Inf
    requires Open(maze, next) && g[next.r][next.c] == Inf && Adjacent(curr, next) && next != start
    ensures Linked(maze, Put(maze, g, next, v + 1), start, parent[next := curr])
  {
    var h, parent' := Put(maze, g, next, v + 1), parent[next := curr];
    forall r, c | InGrid(maze, r, c) && h[r][c] < Inf && Cell(r, c) != start
      ensures ParentLink(maze, h, parent', Cell(r, c))
    {
      if Cell(r, c) != next {
        assert ParentLink(maze, g, parent, Cell(r, c));
        var y := parent[Cell(r, c)];
        assert InGrid(maze, y.r, y.c);
      } else {
        assert InGrid(maze, curr.r, curr.c);
      }
    }
  }

  /** A reached cell keeps every neighbour fact it had. */
  lemma KeepNeighbours(maze: seq<string>, g: Table, x: Cell, next: Cell, v: int)
    requires Shaped(maze, g) && InBounds(maze, x) && g[x.r][x.c] < Inf
    requires InBounds(maze, next) && g[next.r][next.c] == Inf
    ensures forall d :: 0 <= d < 4 && NeighbourDone(maze, g, x, d) ==>
              NeighbourDone(maze, Put(maze, g, next, v + 1), x, d)
  {
    var h := Put(maze, g, next, v + 1);
    assert InGrid(maze, x.r, x.c);
    forall d | 0 <= d < 4 && NeighbourDone(maze, g, x, d)
      ensures NeighbourDone(maze, h, x, d)
    {
      var y := Step(x, d);
      if Open(maze, y) {
        assert InGrid(maze, y.r, y.c);
      }
    }
  }

  lemma {:induction false} KeepRelaxed(maze: seq<string>, g: Table, qs: seq<Cell>, head: int, next: Cell, v: int)
    requires Shaped(maze, g) && 0 <= head <= |qs| && RelaxedBefore(maze, g, qs, head)
    requires forall i :: 0 <= i < |qs| ==> InBounds(maze, qs[i]) && g[qs[i].r][qs[i].c] < Inf
    requires InBounds(maze, next) && g[next.r][next.c] == Inf
    ensures RelaxedBefore(maze, Put(maze, g, next, v + 1), qs + [next], head)
    decreases head
  {
    if head > 0 {
      KeepRelaxed(maze, g, qs, head - 1, next, v);
      var x := qs[head - 1];
      var h := Put(maze, g, next, v + 1);
      assert Relaxed(maze, g, x);
      KeepNeighbours(maze, g, x, next, v);
      assert InGrid(maze, x.r, x.c);
      assert h[x.r][x.c] == g[x.r][x.c] < Inf;
      forall d | 0 <= d < 4 ensures NeighbourDone(maze, h, x, d) {
        assert NeighbourDone(maze, g, x, d);
      }
      assert Relaxed(maze, h, x);
      assert (qs + [next])[head - 1] == x;
    }
  }

  /**
   * The state inside the direction loop: the cell in slot head is being
   * processed and its neighbours in the directions before d are done.
   */
  ghost predicate Scanning(maze: seq<string>, g: Table, start: Cell, qs: seq<Cell>, seen: set<int>,
                           pos: map<Cell, int>, parent: map<Cell, Cell>, head: int, d: int)
    requires Shaped(maze, g) && InBounds(maze, start)
  {
    Searching(maze, g, start, qs, seen, pos, parent) && 0 <= head < |qs| && 0 <= d <= 4 &&
    Last(maze, g, qs) <= g[qs[head].r][qs[head].c] + 1 &&
    RelaxedBefore(maze, g, qs, head) &&
    forall e :: 0 <= e < d ==> NeighbourDone(maze, g, qs[head], e)
  }

  /** Slot head is taken up: no direction is done yet. */
  lemma BeginCell(maze: seq<string>, g: Table, start: Cell, qs: seq<Cell>, seen: set<int>,
                  pos: map<Cell, int>, parent: map<Cell, Cell>, head: int)
    requires Shaped(maze, g) && InBounds(maze, start)
    requires Searching(maze, g, start, qs, seen, pos, parent) && RelaxedBefore(maze, g, qs, head)
    requires 0 <= head < |qs| && Last(maze, g, qs) <= g[qs[head].r][qs[head].c] + 1
    ensures Scanning(maze, g, start, qs, seen, pos, parent, head, 0)
  {
  }

  /** A neighbour that is outside, a wall or already reached needs no change. */
  lemma SkipNeighbour(maze: seq<string>, g: Table, start: Cell, qs: seq<Cell>, seen: set<int>,
                      pos: map<Cell, int>, parent: map<Cell, Cell>, head: int, d: int)
    requires Shaped(maze, g) && InBounds(maze, start)
    requires Scanning(maze, g, start, qs, seen, pos, parent, head, d) && d < 4
    requires var next := Step(qs[head], d); !Open(maze, next) || g[next.r][next.c] < Inf
    ensures Scanning(maze, g, start, qs, seen, pos, parent, head, d + 1)
  {
    var next := Step(qs[head], d);
    if Open(maze, next) {
      assert InGrid(maze, next.r, next.c);
      assert g[next.r][next.c] <= Last(maze, g, qs);
    }
    assert NeighbourDone(maze, g, qs[head], d);
  }

  /**
   * The enqueue step of breadth_first_search keeps the loop invariant: the
   * queue has room, and with next given curr's value v plus one and
   * appended, every part of the invariant holds of the new table, queue and
   * ghost bookkeeping.
   */
  lemma Enqueue(maze: seq<string>, g: Table, start: Cell, qs: seq<Cell>, seen: set<int>,
                     pos: map<Cell, int>, parent: map<Cell, Cell>, head: int, d: int, curr: Cell, next: Cell, v: int)
    requires Shaped(maze, g) && InBounds(maze, start)
    requires Scanning(maze, g, start, qs, seen, pos, parent, head, d) && d < 4
    requires curr == qs[head] && next == Step(curr, d) && v == g[curr.r][curr.c]
    requires Open(maze, next) && g[next.r][next.c] == Inf
    requires NumRows(maze) * NumCols(maze) < Inf
    ensures |qs| < NumRows(maze) * NumCols(maze)
    ensures Scanning(maze, Put(maze, g, next, v + 1), start, qs + [next], seen + {Code(maze, next)},
                     pos[next := |qs|], parent[next := curr], head, d + 1)
    ensures Put(maze, g, next, v + 1)[curr.r][curr.c] == v
  {
    StepAdjacent(curr, d);
    KeepSearching(maze, g, start, qs, seen, pos, parent, curr, next, v);
    KeepRelaxed(maze, g, qs, head, next, v);
    ScanNeighbours(maze, g, curr, next, d, v);
    var qs' := qs + [next];
    assert qs'[head] == curr && qs'[|qs'| - 1] == next;
    ScanningIntro(maze, Put(maze, g, next, v + 1), start, qs', seen + {Code(maze, next)}, pos[next := |qs|], parent[next := curr], head, d + 1, curr);
  }

  /** Scanning from its parts, with x the cell in slot head. */
  lemma ScanningIntro(maze: seq<string>, g: Table, start: Cell, qs: seq<Cell>, seen: set<int>,
                      pos: map<Cell, int>, parent: map<Cell, Cell>, head: int, d: int, x: Cell)
    requires Shaped(maze, g) && InBounds(maze, start)
    requires Searching(maze, g, start, qs, seen, pos, parent) && 0 <= head < |qs| && 0 <= d <= 4 && qs[head] == x
    requires Last(maze, g, qs) <= g[x.r][x.c] + 1 && RelaxedBefore(maze, g, qs, head)
    requires forall e :: 0 <= e < d ==> NeighbourDone(maze, g, x, e)
    ensures Scanning(maze, g, start, qs, seen, pos, parent, head, d)
  {
  }

  /** After next is reached from curr, curr's neighbours up to direction d are done. */
  lemma ScanNeighbours(maze: seq<string>, g: Table, curr: Cell, next: Cell, d: int, v: int)
    requires Shaped(maze, g) && InBounds(maze, curr) && g[curr.r][curr.c] == v && v + 1 < Inf && 0 <= d < 4
    requires forall e :: 0 <= e < d ==> NeighbourDone(maze, g, curr, e)
    requires next == Step(curr, d) && Open(maze, next) && g[next.r][next.c] == Inf
    ensures var h := Put(maze, g, next, v + 1);
            h[curr.r][curr.c] == v && h[next.r][next.c] == v + 1 &&
            forall e :: 0 <= e < d + 1 ==> NeighbourDone(maze, h, curr, e)
  {
    assert InGrid(maze, next.r, next.c) && InGrid(maze, curr.r, curr.c);
    KeepNeighbours(maze, g, curr, next, v);
    var h := Put(maze, g, next, v + 1);
    forall e | 0 <= e < d + 1 ensures NeighbourDone(maze, h, curr, e) {
      if e < d {
        assert NeighbourDone(maze, g, curr, e);
      }
    }
  }

  /** Giving the unreached open neighbour next of curr the value v + 1 and queueing it keeps Searching. */
  lemma KeepSearching(maze: seq<string>, g: Table, start: Cell, qs: seq<Cell>, seen: set<int>,
                      pos: map<Cell, int>, parent: map<Cell, Cell>, curr: Cell, next: Cell, v: int)
    requires Shaped(maze, g) && InBounds(maze, start)
    requires Searching(maze, g, start, qs, seen, pos, parent)
    requires InBounds(maze, curr) && g[curr.r][curr.c] == v && v < Inf && Last(maze, g, qs) <= v + 1
    requires Open(maze, next) && g[next.r][next.c] == Inf && Adjacent(curr, next)
    requires NumRows(maze) * NumCols(maze) < Inf
    ensures |qs| < NumRows(maze) * NumCols(maze) && v + 1 < Inf
    ensures Searching(maze, Put(maze, g, next, v + 1), start, qs + [next], seen + {Code(maze, next)},
                      pos[next := |qs|], parent[next := curr])
  {
    assert InGrid(maze, next.r, next.c) && InGrid(maze, curr.r, curr.c);
    assert v <= Last(maze, g, qs);
    CodeBound(maze, next);
    SubsetOfRange(seen + {Code(maze, next)}, NumRows(maze) * NumCols(maze));
    assert v + 1 < Inf;
    KeepQueueShape(maze, g, qs, next, v);
    KeepBounded(maze, g, qs, next, v);
    KeepPositioned(maze, g, qs, pos, next, v);
    KeepCounted(maze, g, qs, seen, next, v);
    KeepLinked(maze, g, start, parent, curr, next, v);
    assert InGrid(maze, start.r, start.c);
    assert Put(maze, g, next, v + 1)[start.r][start.c] == 0;
  }

  /** All four directions are done: slot head joins the processed part. */
  lemma FinishCell(maze: seq<string>, g: Table, start: Cell, qs: seq<Cell>, seen: set<int>,
                   pos: map<Cell, int>, parent: map<Cell, Cell>, head: int)
    requires Shaped(maze, g) && InBounds(maze, start)
    requires Scanning(maze, g, start, qs, seen, pos, parent, head, 4)
    ensures Searching(maze, g, start, qs, seen, pos, parent) && RelaxedBefore(maze, g, qs, head + 1)
    ensures head + 1 < |qs| ==> Last(maze, g, qs) <= g[qs[head + 1].r][qs[head + 1].c] + 1
  {
    assert Relaxed(maze, g, qs[head]);
  }

  /** The first loop of breadth_first_search: every cell of the maze becomes Inf. */
  method FillUnreached(maze: seq<string>, steps: array2<int>)
    requires IsGrid(maze) && NumRows(maze) <= steps.Length0 && NumCols(maze) <= steps.Length1
    modifies steps
    ensures forall r, c :: InGrid(maze, r, c) ==> steps[r, c] == Inf
    ensures forall r, c :: 0 <= r < steps.Length0 && 0 <= c < steps.Length1 && !InGrid(maze, r, c) ==>
              steps[r, c] == old(steps[r, c])
  {
    for r := 0 to NumRows(maze)
      invariant forall i, j :: 0 <= i < r && 0 <= j < NumCols(maze) ==> steps[i, j] == Inf
      invariant forall i, j :: 0 <= i < steps.Length0 && 0 <= j < steps.Length1 && !InGrid(maze, i, j) ==>
                  steps[i, j] == old(steps[i, j])
    {
      for c := 0 to NumCols(maze)
        invariant forall i, j :: 0 <= i < r && 0 <= j < NumCols(maze) ==> steps[i, j] == Inf
        invariant forall j :: 0 <= j < c ==> steps[r, j] == Inf
        invariant forall i, j :: 0 <= i < steps.Length0 && 0 <= j < steps.Length1 && !InGrid(maze, i, j) ==>
                    steps[i, j] == old(steps[i, j])
      {
        steps[r, c] := Inf;
      }
    }
  }

  /** The maze part of the steps array holds the table g. */
  ghost predicate Mirrors(maze: seq<string>, steps: array2<int>, g: Table)
    reads steps
  {
    Shaped(maze, g) && NumRows(maze) <= steps.Length0 && NumCols(maze) <= steps.Length1 &&
    forall r, c :: InGrid(maze, r, c) ==> steps[r, c] == g[r][c]
  }

  /** The table of an array whose maze part is all Inf except the start, which holds 0. */
  ghost function StartTable(maze: seq<string>, start: Cell): (g: Table)
    requires IsGrid(maze) && InBounds(maze, start)
    ensures Shaped(maze, g)
    ensures forall r, c :: InGrid(maze, r, c) ==> g[r][c] == if Cell(r, c) == start then 0 else Inf
  {
    seq(NumRows(maze), r => seq(NumCols(maze), c => if Cell(r, c) == start then 0 else Inf))
  }

  /**
   * breadth_first_search(steps, start_r, start_c): steps[r][c] becomes the
   * distance from the start to cell (r, c), or Inf when no path leads there.
   * The queue is a local array with room for one entry per cell of the maze.
   */
  method BreadthFirstSearch(maze: seq<string>, steps: array2<int>, start: Cell)
    requires IsGrid(maze) && NumRows(maze) <= steps.Length0 && NumCols(maze) <= steps.Length1
    requires NumRows(maze) * NumCols(maze) < Inf
    requires InBounds(maze, start)
    modifies steps
    ensures forall r, c :: InGrid(maze, r, c) ==> IsDistance(maze, start, Cell(r, c), steps[r, c])
    ensures forall r, c :: 0 <= r < steps.Length0 && 0 <= c < steps.Length1 && !InGrid(maze, r, c) ==>
              steps[r, c] == old(steps[r, c])
  {
    FillUnreached(maze, steps);
    var queue := new Cell[NumRows(maze) * NumCols(maze)](_ => start);
    queue[0] := start;
    steps[start.r, start.c] := 0;
    ghost var g := StartTable(maze, start);
    ghost var qs := [start];
    ghost var seen: set<int> := {Code(maze, start)};
    ghost var pos: map<Cell, int> := map[start := 0];
    ghost var parent: map<Cell, Cell> := map[];
    StartSearching(maze, start);
    Drain(maze, steps, start, queue, g, qs, seen, pos, parent);
  }

  /** The main loop of breadth_first_search, from the queue holding the start cell alone. */
  method Drain(maze: seq<string>, steps: array2<int>, start: Cell, queue: array<Cell>, ghost g0: Table,
               ghost qs0: seq<Cell>, ghost seen0: set<int>, ghost pos0: map<Cell, int>, ghost parent0: map<Cell, Cell>)
    requires IsGrid(maze) && InBounds(maze, start) && NumRows(maze) * NumCols(maze) < Inf
    requires queue.Length == NumRows(maze) * NumCols(maze) && qs0 == [start] && queue[..1] == qs0
    requires Mirrors(maze, steps, g0) && Searching(maze, g0, start, qs0, seen0, pos0, parent0)
    requires RelaxedBefore(maze, g0, qs0, 0)
    modifies steps, queue
    ensures forall r, c :: InGrid(maze, r, c) ==> IsDistance(maze, start, Cell(r, c), steps[r, c])
    ensures forall r, c :: 0 <= r < steps.Length0 && 0 <= c < steps.Length1 && !InGrid(maze, r, c) ==>
              steps[r, c] == old(steps[r, c])
  {
    ghost var g, qs, seen, pos, parent := g0, qs0, seen0, pos0, parent0;
    var head, tail := 0, 0;
    while head <= tail
      invariant 0 <= head <= tail + 1 && |qs| == tail + 1 <= queue.Length
      invariant queue[..tail + 1] == qs
      invariant Mirrors(maze, steps, g)
      invariant Searching(maze, g, start, qs, seen, pos, parent)
      invariant head <= tail ==> Last(maze, g, qs) <= g[qs[head].r][qs[head].c] + 1
      invariant RelaxedBefore(maze, g, qs, head)
      invariant forall r, c :: 0 <= r < steps.Length0 && 0 <= c < steps.Length1 && !InGrid(maze, r, c) ==>
                  steps[r, c] == old(steps[r, c])
      decreases queue.Length - head
    {
      BeginCell(maze, g, start, qs, seen, pos, parent, head);
      tail, g, qs, seen, pos, parent := ExpandCell(maze, steps, start, queue, head, tail, g, qs, seen, pos, parent);
      FinishCell(maze, g, start, qs, seen, pos, parent, head);
      head := head + 1;
    }

    SearchDone(maze, g, start, qs, seen, pos, parent);
  }

  /**
   * The inner loop of breadth_first_search: each open, unreached neighbour of
   * the cell in slot head gets that cell's value plus one and is queued.
   */
  method ExpandCell(maze: seq<string>, steps: array2<int>, start: Cell, queue: array<Cell>, head: int, tail0: int,
                    ghost g0: Table, ghost qs0: seq<Cell>, ghost seen0: set<int>,
                    ghost pos0: map<Cell, int>, ghost parent0: map<Cell, Cell>)
    returns (tail: int, ghost g: Table, ghost qs: seq<Cell>, ghost seen: set<int>,
             ghost pos: map<Cell, int>, ghost parent: map<Cell, Cell>)
    requires IsGrid(maze) && InBounds(maze, start) && NumRows(maze) * NumCols(maze) < Inf
    requires queue.Length == NumRows(maze) * NumCols(maze)
    requires 0 <= head <= tail0 && |qs0| == tail0 + 1 <= queue.Length && queue[..tail0 + 1] == qs0
    requires Mirrors(maze, steps, g0) && Scanning(maze, g0, start, qs0, seen0, pos0, parent0, head, 0)
    modifies steps, queue
    ensures |qs| == tail + 1 <= queue.Length && queue[..tail + 1] == qs
    ensures Mirrors(maze, steps, g) && Scanning(maze, g, start, qs, seen, pos, parent, head, 4)
    ensures forall r, c :: 0 <= r < steps.Length0 && 0 <= c < steps.Length1 && !InGrid(maze, r, c) ==>
              steps[r, c] == old(steps[r, c])
  {
    tail, g, qs, seen, pos, parent := tail0, g0, qs0, seen0, pos0, parent0;
    var curr := queue[head];
    assert curr == qs[head];
    ghost var v := g[curr.r][curr.c];
    for d := 0 to 4
      invariant |qs| == tail + 1 <= queue.Length
      invariant queue[..tail + 1] == qs
      invariant Mirrors(maze, steps, g)
      invariant Scanning(maze, g, start, qs, seen, pos, parent, head, d)
      invariant qs[head] == curr && g[curr.r][curr.c] == v
      invariant forall r, c :: 0 <= r < steps.Length0 && 0 <= c < steps.Length1 && !InGrid(maze, r, c) ==>
                  steps[r, c] == old(steps[r, c])
    {
      var next := Cell(curr.r + DirRow[d], curr.c + DirCol[d]);
      assert next == Step(curr, d);
      if Outside(maze, next.r, next.c) || maze[next.r][next.c] == Wall || steps[next.r, next.c] < Inf {
        SkipNeighbour(maze, g, start, qs, seen, pos, parent, head, d);
      } else {
        tail, g, qs, seen, pos, parent := Discover(maze, steps, start, queue, head, tail, d, curr, next,
                                                   g, qs, seen, pos, parent);
      }
    }
  }

  /** The else branch of the inner loop: next gets the value of curr plus one and joins the queue. */
  method Discover(maze: seq<string>, steps: array2<int>, start: Cell, queue: array<Cell>, head: int, tail0: int,
                  d: int, curr: Cell, next: Cell, ghost g0: Table, ghost qs0: seq<Cell>, ghost seen0: set<int>,
                  ghost pos0: map<Cell, int>, ghost parent0: map<Cell, Cell>)
    returns (tail: int, ghost g: Table, ghost qs: seq<Cell>, ghost seen: set<int>,
             ghost pos: map<Cell, int>, ghost parent: map<Cell, Cell>)
    requires IsGrid(maze) && InBounds(maze, start) && NumRows(maze) * NumCols(maze) < Inf
    requires queue.Length == NumRows(maze) * NumCols(maze)
    requires |qs0| == tail0 + 1 <= queue.Length && queue[..tail0 + 1] == qs0
    requires Mirrors(maze, steps, g0) && Scanning(maze, g0, start, qs0, seen0, pos0, parent0, head, d) && d < 4
    requires curr == qs0[head] && next == Step(curr, d)
    requires Open(maze, next) && steps[next.r, next.c] == Inf
    modifies steps, queue
    ensures |qs| == tail + 1 <= queue.Length && queue[..tail + 1] == qs
    ensures Mirrors(maze, steps, g) && Scanning(maze, g, start, qs, seen, pos, parent, head, d + 1)
    ensures qs[head] == curr && g[curr.r][curr.c] == g0[curr.r][curr.c]
    ensures tail == tail0 + 1 && qs == qs0 + [next] && g == Put(maze, g0, next, g0[curr.r][curr.c] + 1)
    ensures parent == parent0[next := curr] && pos == pos0[next := |qs0|]
    ensures forall r, c :: 0 <= r < steps.Length0 && 0 <= c < steps.Length1 && !InGrid(maze, r, c) ==>
              steps[r, c] == old(steps[r, c])
  {
    assert InGrid(maze, next.r, next.c) && InGrid(maze, curr.r, curr.c);
    Enqueue(maze, g0, start, qs0, seen0, pos0, parent0, head, d, curr, next, g0[curr.r][curr.c]);
    tail, g, qs, seen, pos, parent := Place(maze, steps, queue, tail0, curr, next, g0, qs0, seen0, pos0, parent0);
  }

  /**
   * The writes of pacman.cc:194-197, with the ghost state they stand for.
   * Discover and Place are one statement of the source split in two: Discover
   * carries the BFS invariant, Place the array and queue writes, so that each
   * proof stays small.
   */
  method Place(maze: seq<string>, steps: array2<int>, queue: array<Cell>, tail0: int,
                  curr: Cell, next: Cell, ghost g0: Table, ghost qs0: seq<Cell>, ghost seen0: set<int>,
                  ghost pos0: map<Cell, int>, ghost parent0: map<Cell, Cell>)
    returns (tail: int, ghost g: Table, ghost qs: seq<Cell>, ghost seen: set<int>,
             ghost pos: map<Cell, int>, ghost parent: map<Cell, Cell>)
    requires IsGrid(maze) && InBounds(maze, curr) && InBounds(maze, next)
    requires 0 <= tail0 && |qs0| == tail0 + 1 < queue.Length && queue[..tail0 + 1] == qs0
    requires Mirrors(maze, steps, g0)
    modifies steps, queue
    ensures |qs| == tail + 1 <= queue.Length && queue[..tail + 1] == qs
    ensures Mirrors(maze, steps, g)
    ensures tail == tail0 + 1 && qs == qs0 + [next] && g == Put(maze, g0, next, g0[curr.r][curr.c] + 1)
    ensures seen == seen0 + {Code(maze, next)} && parent == parent0[next := curr] && pos == pos0[next := |qs0|]
    ensures forall r, c :: 0 <= r < steps.Length0 && 0 <= c < steps.Length1 && !InGrid(maze, r, c) ==>
              steps[r, c] == old(steps[r, c])
  {
    assert InGrid(maze, curr.r, curr.c);
    var k := steps[curr.r, curr.c] + 1;
    g, qs, seen, pos, parent := Put(maze, g0, next, k), qs0 + [next], seen0 + {Code(maze, next)},
                                pos0[next := |qs0|], parent0[next := curr];
    Mark(maze, steps, g0, next, k);
    Append(queue, tail0, next);
    tail := tail0 + 1;
  }

  /**
   * queue[++tail] = x, with the queue's contents up to last before it: the
   * queue half of Place (pacman.cc:195-197), kept apart from the steps write.
   */
  method Append(queue: array<Cell>, last: int, x: Cell)
    requires 0 <= last < queue.Length - 1
    modifies queue
    ensures queue[..last + 2] == old(queue[..last + 1]) + [x]
  {
    queue[last + 1] := x;
    assert queue[..last + 2] == queue[..last + 1] + [x];
  }

  /**
   * steps[next] := k, the array image of Put: the steps half of Place
   * (pacman.cc:194), kept apart from the queue write.
   */
  method Mark(maze: seq<string>, steps: array2<int>, ghost g: Table, next: Cell, k: int)
    requires Mirrors(maze, steps, g) && InBounds(maze, next)
    modifies steps
    ensures Mirrors(maze, steps, Put(maze, g, next, k))
    ensures forall r, c :: 0 <= r < steps.Length0 && 0 <= c < steps.Length1 && !InGrid(maze, r, c) ==>
              steps[r, c] == old(steps[r, c])
  {
    assert InGrid(maze, next.r, next.c);
    steps[next.r, next.c] := k;
    ghost var h := Put(maze, g, next, k);
    forall r, c | InGrid(maze, r, c) ensures steps[r, c] == h[r][c] {
      if Cell(r, c) != next {
        assert steps[r, c] == old(steps[r, c]) == g[r][c];
      }
    }
  }

  /** The state right after the start cell is queued. */
  lemma StartSearching(maze: seq<string>, start: Cell)
    requires IsGrid(maze) && InBounds(maze, start)
    ensures var g := StartTable(maze, start);
            Searching(maze, g, start, [start], {Code(maze, start)}, map[start := 0], map[]) &&
            RelaxedBefore(maze, g, [start], 0)
  {
    CodeBound(maze, start);
    forall r, c | InGrid(maze, r, c) && Cell(r, c) != start
      ensures Code(maze, Cell(r, c)) != Code(maze, start)
    {
      CodeInjective(maze, Cell(r, c), start);
    }
  }

  /** When the queue is exhausted every reached cell has been relaxed, so the table is settled. */
  lemma SearchDone(maze: seq<string>, g: Table, start: Cell, qs: seq<Cell>,
                   seen: set<int>, pos: map<Cell, int>, parent: map<Cell, Cell>)
    requires Shaped(maze, g) && InBounds(maze, start)
    requires Searching(maze, g, start, qs, seen, pos, parent)
    requires RelaxedBefore(maze, g, qs, |qs|)
    ensures forall r, c :: InGrid(maze, r, c) ==> IsDistance(maze, start, Cell(r, c), g[r][c])
  {
    forall r, c | InGrid(maze, r, c)
      ensures Relaxed(maze, g, Cell(r, c))
    {
      if g[r][c] < Inf {
        var k := pos[Cell(r, c)];
        assert qs[k] == Cell(r, c);
      }
    }
    assert Settled(maze, g, start, parent);
    forall r, c | InGrid(maze, r, c)
      ensures IsDistance(maze, start, Cell(r, c), g[r][c])
    {
      SettledDistance(maze, g, start, parent, Cell(r, c));
    }
  }
}
