/**
 * The search of pacman.cc (108-162, 253-414): an A* search over states
 * (current goal, goals left) whose open list is an indexed binary heap. The
 * globals mst, record, heap, f_heap and heap_size become the fields of a
 * Searcher; num_goals and dist, fixed before the search starts, become its
 * constants.
 */
module Search {
  import opened Bitset
  import opened Grid
  import opened SearchState
  import opened HeapOrder
  import opened Prim
  import opened Heuristics
  import opened Tours

  /** kMaxHeapSize: the length of the heap arrays. */
  const MaxHeapSize: int := 20000000

  /**
   * How work ends: a solution with its cost, an open list run empty, or one
   * of the three aborts (heap overflow, inconsistent heuristic, decrease-key
   * on a state that is not queued).
   */
  datatype Outcome = Solved(cost: int) | Exhausted | HeapOverflow | Inconsistency | HeapIndexError

  /** The result of expanding one state: go on, or stop with an abort. */
  datatype Expansion = Expanded | Aborted(why: Outcome)

  /** The result of one round of work's outer loop: go on, or stop with an outcome. */
  datatype Progress = Continue | Stop(outcome: Outcome)

  /**
   * Goal other lies on a shortest way from the current goal to goal id, so
   * the move to id is useless: going to other first costs no more.
   */
  predicate Bypass(D: seq<seq<int>>, n: int, curr: Status, id: int, other: int)
    requires IsFiniteMatrix(D, n) && 0 <= curr.curr < n <= Capacity && 0 <= id < n && 0 <= other < n
  {
    other != id && other != curr.curr && HasBit(curr.bits, other) &&
    D[curr.curr][id] == D[curr.curr][other] + D[other][id]
  }

  /** The state the move from s to its goal id reaches: id is the current goal and leaves the subset. */
  function MoveTo(s: Status, id: int): Status
    requires InRange(id)
  {
    Status(id, SetBit(s.bits, id, false))
  }

  /** work skips the move from curr to goal id: another goal left lies on a shortest way to id. */
  ghost predicate Useless(D: seq<seq<int>>, n: int, curr: Status, id: int)
    requires IsFiniteMatrix(D, n) && 0 <= curr.curr < n <= Capacity && 0 <= id < n
  {
    exists other :: 0 <= other < n && Bypass(D, n, curr, id, other)
  }

  /** Every move from s that work does not skip leads to a state rec holds. */
  ghost predicate Explored(D: seq<seq<int>>, n: int, rec: map<Status, Node>, s: Status)
    requires IsFiniteMatrix(D, n) && 0 <= s.curr < n <= Capacity
  {
    forall id :: 0 <= id < n && HasBit(s.bits, id) && !Useless(D, n, s, id) ==> MoveTo(s, id) in rec
  }

  /**
   * Every record that is not queued has been expanded: it had a goal left,
   * and every move work makes from it leads to a recorded state.
   */
  ghost predicate Settles(D: seq<seq<int>>, n: int, rec: map<Status, Node>, Q: map<Status, int>)
    requires IsFiniteMatrix(D, n) && n <= Capacity
  {
    forall s :: s in rec && s !in Q ==> 0 <= s.curr < n && !IsEmpty(s.bits) && Explored(D, n, rec, s)
  }

  /** dist keeps distinct goals apart: they are at least one step from each other. */
  ghost predicate Apart(D: seq<seq<int>>, n: int)
    requires IsFiniteMatrix(D, n)
  {
    forall i, j :: 0 <= i < n && 0 <= j < n && i != j ==> D[i][j] > 0
  }

  /** Adding records keeps an expanded state expanded. */
  lemma ExploredGrows(D: seq<seq<int>>, n: int, rec: map<Status, Node>, rec': map<Status, Node>, s: Status)
    requires IsFiniteMatrix(D, n) && 0 <= s.curr < n <= Capacity
    requires Explored(D, n, rec, s) && rec.Keys <= rec'.Keys
    ensures Explored(D, n, rec', s)
  {
  }

  /**
   * One round of work keeps every record that is not queued expanded: the
   * records rec0 with open list Q0 before the round, curr popped from Q0
   * and expanded, and the records added since.
   */
  lemma SettlesAfterRound(D: seq<seq<int>>, n: int, rec0: map<Status, Node>, Q0: map<Status, int>,
                          rec: map<Status, Node>, Q: map<Status, int>, curr: Status)
    requires IsFiniteMatrix(D, n) && n <= Capacity && Settles(D, n, rec0, Q0)
    requires rec0.Keys <= rec.Keys && rec.Keys - Q.Keys == rec0.Keys - (Q0.Keys - {curr})
    requires 0 <= curr.curr < n && !IsEmpty(curr.bits) && Explored(D, n, rec, curr)
    ensures Settles(D, n, rec, Q)
  {
    forall s | s in rec && s !in Q
      ensures 0 <= s.curr < n && !IsEmpty(s.bits) && Explored(D, n, rec, s)
    {
      assert s in rec.Keys - Q.Keys;
      if s != curr {
        assert s in rec0 && s !in Q0;
        ExploredGrows(D, n, rec0, rec, s);
      }
    }
  }

  /** A set other than the empty one has a member. */
  lemma Inhabited(S: set<int>)
    requires S != {}
    ensures exists x :: x in S
  {
    assert !(forall x :: x !in S) by {
      assert (forall x :: x !in S) ==> S == {};
    }
  }

  /** Among the goals of a nonempty set S there is one nearest to goal c. */
  lemma {:induction false} Nearest(D: seq<seq<int>>, n: int, c: int, S: set<int>) returns (id: int)
    requires IsFiniteMatrix(D, n) && 0 <= c < n && S != {} && forall j :: j in S ==> 0 <= j < n
    ensures id in S && forall j :: j in S ==> D[c][id] <= D[c][j]
    decreases |S|
  {
    Inhabited(S);
    var x :| x in S;
    if S == {x} {
      return x;
    }
    id := Nearest(D, n, c, S - {x});
    if D[c][x] < D[c][id] {
      id := x;
    }
  }

  /** When dist keeps distinct goals apart, work never skips the move to a nearest goal left. */
  lemma NearestUseful(D: seq<seq<int>>, n: int, s: Status, id: int)
    requires IsFiniteMatrix(D, n) && Apart(D, n) && 0 <= s.curr < n <= Capacity && 0 <= id < n
    requires HasBit(s.bits, id) && forall j :: 0 <= j < n && j in Members(s.bits) ==> D[s.curr][id] <= D[s.curr][j]
    ensures !Useless(D, n, s, id)
  {
    forall other | 0 <= other < n ensures !Bypass(D, n, s, id, other) {
      if other != id && other != s.curr && HasBit(s.bits, other) {
        assert other in Members(s.bits);
      }
    }
  }

  /**
   * The open list of a settled record is never empty while dist keeps
   * goals apart: from a record whose goals left are all below n, the moves
   * to a nearest goal lead through records to a queued one, since a record
   * that is not queued has a goal left and its move to the nearest is made.
   */
  lemma {:induction false} ChainToQueue(D: seq<seq<int>>, n: int, rec: map<Status, Node>, Q: map<Status, int>, s: Status)
    requires IsFiniteMatrix(D, n) && n <= Capacity && Apart(D, n) && Settles(D, n, rec, Q)
    requires s in rec && forall i :: i in Members(s.bits) ==> i < n
    ensures exists x :: x in rec && x in Q
    decreases |Members(s.bits)|
  {
    if s !in Q {
      EmptyIffNoMembers(s.bits);
      var id := Nearest(D, n, s.curr, Members(s.bits));
      NearestUseful(D, n, s, id);
      var t := MoveTo(s, id);
      SetBitMembers(s.bits, id, false);
      assert Members(s.bits) == Members(t.bits) + {id};
      ChainToQueue(D, n, rec, Q, t);
    }
  }

  /** work tries the move from curr to goal id: id is left and the move is not useless. */
  ghost predicate Tried(D: seq<seq<int>>, n: int, curr: Status, id: int)
    requires IsFiniteMatrix(D, n) && 0 <= curr.curr < n <= Capacity
  {
    0 <= id < n && HasBit(curr.bits, id) && !Useless(D, n, curr, id)
  }

  /**
   * The consistency check of work fails for the move from curr, popped with
   * g_ = g and key currF, to goal id: next_f < curr_f / num_goals.
   */
  ghost predicate Inconsistent(D: seq<seq<int>>, n: int, curr: Status, g: int, currF: int, id: int)
    requires IsFiniteMatrix(D, n) && 0 <= curr.curr < n <= Capacity && 0 <= id < n
  {
    g + D[curr.curr][id] + Heuristic(D, n, MoveTo(curr, id)) < currF / n
  }

  /** Every move work tries from curr to a goal below k passes the consistency check. */
  ghost predicate CheckedBelow(D: seq<seq<int>>, n: int, curr: Status, g: int, currF: int, k: int)
    requires IsFiniteMatrix(D, n) && 0 <= curr.curr < n <= Capacity
  {
    forall j :: 0 <= j < k && Tried(D, n, curr, j) ==> !Inconsistent(D, n, curr, g, currF, j)
  }

  /** A goal k that is not tried, or whose move passes the check, extends the checked goals by one. */
  lemma CheckStep(D: seq<seq<int>>, n: int, curr: Status, g: int, currF: int, k: int)
    requires IsFiniteMatrix(D, n) && 0 <= curr.curr < n <= Capacity && 0 <= k < n
    requires CheckedBelow(D, n, curr, g, currF, k)
    requires Tried(D, n, curr, k) ==> !Inconsistent(D, n, curr, g, currF, k)
    ensures CheckedBelow(D, n, curr, g, currF, k + 1)
  {
  }

  /**
   * Read with the key work pops curr with, whose quotient by num_goals is
   * g_ + h of curr (QueuedKey, PackSplit), the consistency check compares h
   * across the move: it fails exactly when the move's distance plus h of the
   * next state is below h of curr.
   */
  lemma InconsistentIff(D: seq<seq<int>>, n: int, curr: Status, g: int, currF: int, id: int)
    requires IsFiniteMatrix(D, n) && 0 <= curr.curr < n <= Capacity && 0 <= id < n
    requires currF / n == g + Heuristic(D, n, curr)
    ensures Inconsistent(D, n, curr, g, currF, id) <==>
            D[curr.curr][id] + Heuristic(D, n, MoveTo(curr, id)) < Heuristic(D, n, curr)
  {
  }

  /**
   * The move from curr (g_ = g, key currF) to goal id is tried and stops
   * work with the abort why, read in the records rec and heap_size size it
   * leaves: the check fails; or the check passes and the state is recorded
   * dearer but is no longer queued; or the check passes and the new record
   * Node(g_value, id, -1) finds the heap full.
   */
  ghost predicate AbortsAt(D: seq<seq<int>>, n: int, rec: map<Status, Node>, size: int,
                           curr: Status, g: int, currF: int, id: int, why: Outcome)
    requires IsFiniteMatrix(D, n) && 0 <= curr.curr < n <= Capacity
  {
    Tried(D, n, curr, id) &&
    match why
    case Inconsistency => Inconsistent(D, n, curr, g, currF, id)
    case HeapIndexError =>
      !Inconsistent(D, n, curr, g, currF, id) && MoveTo(curr, id) in rec &&
      g + D[curr.curr][id] < rec[MoveTo(curr, id)].g && rec[MoveTo(curr, id)].heapIndex == -1
    case HeapOverflow =>
      !Inconsistent(D, n, curr, g, currF, id) && size == MaxHeapSize - 1 && MoveTo(curr, id) in rec &&
      rec[MoveTo(curr, id)] == Node(g + D[curr.curr][id], id, -1)
    case _ => false
  }

  /**
   * work stops with the abort why while it expands s, recorded with g_ = g
   * and popped with key f: a move from s that work tries is the abort's
   * cause.
   */
  ghost predicate AbortedFrom(D: seq<seq<int>>, n: int, rec: map<Status, Node>, size: int,
                              s: Status, g: int, f: int, why: Outcome)
    requires IsFiniteMatrix(D, n) && n <= Capacity
  {
    0 <= s.curr < n && s in rec && rec[s].g == g &&
    exists id :: AbortsAt(D, n, rec, size, s, g, f, id, why)
  }

  /** s is the state of a move that work tries from curr. */
  ghost predicate TriedMove(D: seq<seq<int>>, n: int, curr: Status, s: Status)
    requires IsFiniteMatrix(D, n) && 0 <= curr.curr < n <= Capacity
  {
    Tried(D, n, curr, s.curr) && s == MoveTo(curr, s.curr)
  }

  /**
   * What a record of s holds after work offers it cost c, given the records
   * rec0 before: a record no dearer than c is kept, otherwise s gets c
   * (pacman.cc:395-410).
   */
  ghost function Offered(rec0: map<Status, Node>, s: Status, c: int): (r: int)
    ensures r <= c && (s in rec0 ==> r <= rec0[s].g)
    ensures r == c || (s in rec0 && r == rec0[s].g)
  {
    if s in rec0 && rec0[s].g <= c then rec0[s].g else c
  }

  /**
   * Every move work tries from curr, popped with g_ = g, is recorded in rec
   * with the cost it was offered against the records rec0 before the round.
   */
  ghost predicate OfferedAll(D: seq<seq<int>>, n: int, rec0: map<Status, Node>, rec: map<Status, Node>, curr: Status, g: int)
    requires IsFiniteMatrix(D, n) && 0 <= curr.curr < n <= Capacity
  {
    forall id :: 0 <= id < n && HasBit(curr.bits, id) && !Useless(D, n, curr, id) ==>
      MoveTo(curr, id) in rec && rec[MoveTo(curr, id)].g == Offered(rec0, MoveTo(curr, id), g + D[curr.curr][id])
  }

  /**
   * The expansion of curr, with g_ = g, after the goals below k: no record
   * of rec0 is lost or made dearer; the records beyond rec0, and the records
   * whose g_ fell, are states of moves to goals below k that work tries
   * from curr; and every move to a goal below k that work tries is recorded
   * with exactly the cost it was offered.
   */
  ghost predicate ExpandedBelow(D: seq<seq<int>>, n: int, rec0: map<Status, Node>, rec: map<Status, Node>,
                                curr: Status, g: int, k: int)
    requires IsFiniteMatrix(D, n) && 0 <= curr.curr < n <= Capacity && k <= n
  {
    (forall s :: s in rec0 ==> s in rec && rec[s].g <= rec0[s].g) &&
    (forall s :: s in rec && s !in rec0 ==> TriedMove(D, n, curr, s) && s.curr < k) &&
    (forall s :: s in rec0 && s in rec && rec[s].g < rec0[s].g ==> TriedMove(D, n, curr, s) && s.curr < k) &&
    forall j :: 0 <= j < k && Tried(D, n, curr, j) ==>
      MoveTo(curr, j) in rec && rec[MoveTo(curr, j)].g == Offered(rec0, MoveTo(curr, j), g + D[curr.curr][j])
  }

  /** A goal that is not left, or whose move is useless, adds nothing to expand. */
  lemma ExpandSkip(D: seq<seq<int>>, n: int, rec0: map<Status, Node>, rec: map<Status, Node>, curr: Status, g: int, k: int)
    requires IsFiniteMatrix(D, n) && 0 <= curr.curr < n <= Capacity && 0 <= k < n
    requires ExpandedBelow(D, n, rec0, rec, curr, g, k) && !Tried(D, n, curr, k)
    ensures ExpandedBelow(D, n, rec0, rec, curr, g, k + 1)
  {
    forall j | 0 <= j < k + 1 && Tried(D, n, curr, j)
      ensures MoveTo(curr, j) in rec && rec[MoveTo(curr, j)].g == Offered(rec0, MoveTo(curr, j), g + D[curr.curr][j])
    {
      assert j < k;
    }
  }

  /**
   * The move to goal k records its state with the cost it is offered, adds
   * no other record and changes no other g_: the moves below k keep their
   * costs, and the state of k, untouched until now, is offered against its
   * record in rec0.
   */
  lemma ExpandStep(D: seq<seq<int>>, n: int, rec0: map<Status, Node>, rec: map<Status, Node>, rec': map<Status, Node>,
                   curr: Status, g: int, k: int)
    requires IsFiniteMatrix(D, n) && 0 <= curr.curr < n <= Capacity && 0 <= k < n
    requires Tried(D, n, curr, k) && ExpandedBelow(D, n, rec0, rec, curr, g, k)
    requires rec'.Keys == rec.Keys + {MoveTo(curr, k)} &&
             rec'[MoveTo(curr, k)].g == Offered(rec, MoveTo(curr, k), g + D[curr.curr][k])
    requires forall s :: s in rec && s != MoveTo(curr, k) ==> rec'[s].g == rec[s].g
    ensures ExpandedBelow(D, n, rec0, rec', curr, g, k + 1)
  {
    var next := MoveTo(curr, k);
    assert next.curr == k;
    assert next in rec0 <==> next in rec;
    if next in rec0 {
      assert rec[next].g == rec0[next].g;
    }
    assert Offered(rec, next, g + D[curr.curr][k]) == Offered(rec0, next, g + D[curr.curr][k]);
    forall j | 0 <= j < k + 1 && Tried(D, n, curr, j)
      ensures MoveTo(curr, j) in rec' &&
              rec'[MoveTo(curr, j)].g == Offered(rec0, MoveTo(curr, j), g + D[curr.curr][j])
    {
      var m := MoveTo(curr, j);
      if j < k {
        assert m.curr == j && m != next && m in rec;
        assert rec'[m].g == rec[m].g == Offered(rec0, m, g + D[curr.curr][j]);
      }
    }
  }

  /** The whole expansion of curr, read clause by clause. */
  lemma ExpandedAll(D: seq<seq<int>>, n: int, rec0: map<Status, Node>, rec: map<Status, Node>, curr: Status, g: int)
    requires IsFiniteMatrix(D, n) && 0 <= curr.curr < n <= Capacity
    requires ExpandedBelow(D, n, rec0, rec, curr, g, n)
    ensures forall s :: s in rec && s !in rec0 ==>
              0 <= s.curr < n && HasBit(curr.bits, s.curr) && !Useless(D, n, curr, s.curr) && s == MoveTo(curr, s.curr)
    ensures forall s :: s in rec0 && rec[s].g < rec0[s].g ==>
              0 <= s.curr < n && HasBit(curr.bits, s.curr) && !Useless(D, n, curr, s.curr) && s == MoveTo(curr, s.curr)
    ensures OfferedAll(D, n, rec0, rec, curr, g)
  {
  }

  /**
   * A record of rec0 that is not queued in Q0, a state work has already
   * taken off the heap, is still recorded in rec with the same g_.
   */
  ghost predicate SettledKept(rec0: map<Status, Node>, Q0: map<Status, int>, rec: map<Status, Node>) {
    forall s :: s in rec0 && s !in Q0 ==> s in rec && rec[s].g == rec0[s].g
  }

  /**
   * A move that offers next the cost c, read from what it does to the
   * records: it keeps a record no dearer than c, lowers only a queued one,
   * and records a new state at c; so next holds its offered cost and no
   * state already taken off the heap changes its g_.
   */
  lemma OfferKept(rec: map<Status, Node>, Q: map<Status, int>, rec': map<Status, Node>, Q': map<Status, int>,
                  next: Status, c: int)
    requires rec'.Keys == rec.Keys + {next} && rec'.Keys - Q'.Keys == rec.Keys - Q.Keys
    requires forall s :: s in rec && s != next ==> rec'[s].g == rec[s].g
    requires next in rec && rec[next].g <= c ==> rec' == rec
    requires next in rec && c < rec[next].g ==> rec'[next].g == c && next in Q'
    requires next !in rec ==> rec'[next].g == c
    ensures rec'[next].g == Offered(rec, next, c) && SettledKept(rec, Q, rec')
  {
    if next in rec && c < rec[next].g {
      assert next !in rec'.Keys - Q'.Keys;
    }
  }

  /**
   * A tried move to goal k that work completes without an abort extends
   * the expansion of curr and its checked moves by k, and keeps every state
   * already taken off the heap.
   */
  lemma TriedStep(D: seq<seq<int>>, n: int, rec0: map<Status, Node>, rec: map<Status, Node>, Q: map<Status, int>,
                  rec': map<Status, Node>, Q': map<Status, int>, curr: Status, g: int, currF: int, k: int)
    requires IsFiniteMatrix(D, n) && 0 <= curr.curr < n <= Capacity && 0 <= k < n
    requires Tried(D, n, curr, k) && !Inconsistent(D, n, curr, g, currF, k)
    requires ExpandedBelow(D, n, rec0, rec, curr, g, k) && CheckedBelow(D, n, curr, g, currF, k)
    requires var next, c := MoveTo(curr, k), g + D[curr.curr][k];
             rec'.Keys == rec.Keys + {next} && rec'.Keys - Q'.Keys == rec.Keys - Q.Keys &&
             (forall s :: s in rec && s != next ==> rec'[s].g == rec[s].g) &&
             (next in rec && rec[next].g <= c ==> rec' == rec) &&
             (next in rec && c < rec[next].g ==> rec'[next].g == c && next in Q') &&
             (next !in rec ==> rec'[next].g == c)
    ensures ExpandedBelow(D, n, rec0, rec', curr, g, k + 1) && CheckedBelow(D, n, curr, g, currF, k + 1)
    ensures SettledKept(rec, Q, rec')
  {
    OfferKept(rec, Q, rec', Q', MoveTo(curr, k), g + D[curr.curr][k]);
    ExpandStep(D, n, rec0, rec, rec', curr, g, k);
    CheckStep(D, n, curr, g, currF, k);
  }

  /**
   * Popping curr changes no g_ and takes only curr off the heap, so a stretch
   * after the pop that keeps the states off the heap then keeps those off it
   * before.
   */
  lemma PoppedKept(rec0: map<Status, Node>, Q0: map<Status, int>, rec: map<Status, Node>, Q: map<Status, int>,
                   rec': map<Status, Node>, curr: Status)
    requires SameCosts(rec, rec0) && Q == Q0 - {curr} && SettledKept(rec, Q, rec')
    ensures SettledKept(rec0, Q0, rec')
  {
    forall s | s in rec0 && s !in Q0
      ensures s in rec' && rec'[s].g == rec0[s].g
    {
      assert s in rec && s !in Q;
    }
  }

  /**
   * A round of work's outer loop that pops curr (which changes no g_) and
   * then expands it without an abort: curr joins the states taken off the
   * heap, those already off keep their g_ and stay expanded, and every move
   * tried from curr holds its offered cost measured against the records
   * before the pop.
   */
  lemma PoppedRound(D: seq<seq<int>>, n: int, rec0: map<Status, Node>, Q0: map<Status, int>,
                    rec: map<Status, Node>, Q: map<Status, int>, rec': map<Status, Node>, Q': map<Status, int>,
                    curr: Status, g: int)
    requires IsFiniteMatrix(D, n) && 0 <= curr.curr < n <= Capacity
    requires SameCosts(rec, rec0) && curr in rec0 && curr in Q0 && Q == Q0 - {curr} && g == rec0[curr].g
    requires SettledKept(rec, Q, rec') && rec'.Keys - Q'.Keys == rec.Keys - Q.Keys
    requires OfferedAll(D, n, rec, rec', curr, g)
    requires Settles(D, n, rec0, Q0) && !IsEmpty(curr.bits) && rec.Keys <= rec'.Keys
    ensures SettledKept(rec0, Q0, rec') && rec'.Keys - Q'.Keys == rec0.Keys - Q0.Keys + {curr}
    ensures OfferedAll(D, n, rec0, rec', curr, g) && Settles(D, n, rec', Q')
  {
    assert rec.Keys - Q.Keys == rec0.Keys - Q0.Keys + {curr};
    PoppedKept(rec0, Q0, rec, Q, rec', curr);
    SettlesAfterRound(D, n, rec0, Q0, rec', Q', curr);
    forall id | 0 <= id < n && HasBit(curr.bits, id) && !Useless(D, n, curr, id)
      ensures Offered(rec, MoveTo(curr, id), g + D[curr.curr][id]) == Offered(rec0, MoveTo(curr, id), g + D[curr.curr][id])
    {
    }
  }

  /** States settled before a stretch that keeps them settled keep their g_ across two stretches. */
  lemma SettledKeptTrans(r0: map<Status, Node>, Q0: map<Status, int>, r1: map<Status, Node>, Q1: map<Status, int>,
                         r2: map<Status, Node>)
    requires SettledKept(r0, Q0, r1) && SettledKept(r1, Q1, r2) && r0.Keys - Q0.Keys <= r1.Keys - Q1.Keys
    ensures SettledKept(r0, Q0, r2)
  {
  }

  /** The open list of settled records that hold the start is not empty, when dist keeps goals apart. */
  lemma OpenListLive(D: seq<seq<int>>, n: int, rec: map<Status, Node>, Q: map<Status, int>, origin: Status)
    requires IsFiniteMatrix(D, n) && n <= Capacity && Settles(D, n, rec, Q) && origin in rec
    ensures Apart(D, n) && (forall i :: i in Members(origin.bits) ==> i < n) ==> Q != map[]
  {
    if Apart(D, n) && forall i :: i in Members(origin.bits) ==> i < n {
      ChainToQueue(D, n, rec, Q, origin);
    }
  }

  /** Every state on num_goals goals. */
  ghost function Universe(n: int): set<Status> {
    set c: int, w0: int, w1: int, w2: int, w3: int |
      0 <= c < n && 0 <= w0 < WordLimit && 0 <= w1 < WordLimit && 0 <= w2 < WordLimit && 0 <= w3 < WordLimit
      :: Status(c, Bits(w0, w1, w2, w3))
  }

  lemma InUniverse(n: int, s: Status)
    requires 0 <= s.curr < n
    ensures s in Universe(n)
  {
    assert s == Status(s.curr, Bits(s.bits.w0, s.bits.w1, s.bits.w2, s.bits.w3));
  }

  lemma MulZero(a: int, n: int)
    requires n > 0 && -n < a * n < n
    ensures a == 0
  {
  }

  lemma MulBelow(a: int, n: int)
    requires n > 0 && a * n < n
    ensures a <= 0
  {
  }

  /** A key f * num_goals + r with 0 <= r < num_goals splits back into f and r. */
  lemma Unpack(q: int, r: int, n: int)
    requires 0 <= r < n
    ensures (q * n + r) / n == q && (q * n + r) % n == r
  {
    var k := q * n + r;
    var q', r' := k / n, k % n;
    assert (q' - q) * n == r - r';
    MulZero(q' - q, n);
  }

  /** A key of the open list: f times num_goals plus a remainder. */
  function Pack(f: int, r: int, n: int): int {
    f * n + r
  }

  /** Setting the entry of s changes no other entry. */
  lemma UpdateElsewhere(Q: map<Status, int>, s: Status, v: int)
    ensures Q[s := v] - {s} == Q - {s}
  {
  }

  /** The key of a push: f = g + h and r = num_remaining - 1. */
  lemma PushKey(f: int, r: int, g: int, h: int, numRemaining: int, n: int)
    requires f == g + h && r == numRemaining - 1
    ensures Pack(f, r, n) == Pack(g + h, numRemaining - 1, n)
  {
  }

  /**
   * A key with a remainder below num_goals splits back into f and the
   * remainder: curr_f / num_goals and curr_f % num_goals.
   */
  lemma PackSplit(f: int, r: int, n: int)
    requires 0 <= r < n
    ensures Pack(f, r, n) / n == f && Pack(f, r, n) % n == r
  {
    Unpack(f, r, n);
  }

  /**
   * Keys order states by f first and then by r: a key no larger than
   * another has no larger f, and when the f are equal no larger r.
   */
  lemma KeyOrder(q1: int, r1: int, q2: int, r2: int, n: int)
    requires 0 <= r1 < n && 0 <= r2 < n && q1 * n + r1 <= q2 * n + r2
    ensures q1 <= q2 && (q1 == q2 ==> r1 <= r2)
  {
    assert (q1 - q2) * n <= r2 - r1 < n;
    MulBelow(q1 - q2, n);
  }

  /** The decrease-key arithmetic: lowering g by d lowers the key of g + h by d * n. */
  lemma Lowered(g: int, g': int, h: int, r: int, n: int)
    ensures Pack(g + h, r, n) - (g - g') * n == Pack(g' + h, r, n)
  {
    assert (g + h) * n == g * n + h * n;
    assert (g' + h) * n == g' * n + h * n;
    assert (g - g') * n == g * n - g' * n;
  }

  lemma SubsetCard<T>(A: set<T>, B: set<T>)
    requires A <= B
    ensures |A| <= |B|
  {
    assert B == A + (B - A);
  }

  /** The g_ of every record. */
  ghost function Costs(rec: map<Status, Node>): map<Status, int> {
    map s | s in rec :: rec[s].g
  }

  lemma CostsKept(a: map<Status, Node>, b: map<Status, Node>)
    requires SameCosts(a, b)
    ensures Costs(a) == Costs(b)
  {
  }

  lemma CostsAdded(a: map<Status, Node>, s: Status, node: Node)
    ensures Costs(a[s := node]) == Costs(a)[s := node.g]
  {
  }

  lemma CostsChanged(a: map<Status, Node>, b: map<Status, Node>, s: Status, g: int)
    requires b.Keys == a.Keys && s in b && b[s].g == g
    requires forall t :: t in b && t != s ==> b[t].g == a[t].g
    ensures Costs(b) == Costs(a)[s := g]
  {
  }

  /** (num_goals - 1) - |start's subset|: the constant part of every key's remainder. */
  ghost function SpareOf(n: int, origin: Status): int {
    n - 1 - |Members(origin.bits)|
  }

  /**
   * The remainder of s's key: (num_goals - 1) minus the goals visited
   * since the start, which is the number of goals s has left plus SpareOf.
   */
  ghost function Remainder(n: int, origin: Status, s: Status): int {
    |Members(s.bits)| + SpareOf(n, origin)
  }

  /** The record and open list work starts from: the start state alone, in slot 0. */
  lemma StartIndexed(f: seq<int>, h: seq<Status>, start: Status)
    requires 1 <= |f| && 1 <= |h| && h[0] == start
    ensures Ordered(f, 1) && Indexed(h, 1, map[start := Node(0, -1, 0)])
    ensures Queued(map[start := Node(0, -1, 0)], f) == map[start := f[0]]
    ensures Costs(map[start := Node(0, -1, 0)]) == map[start := 0]
  {
  }

  /** The start state is reached by the walk of its goal alone, of length 0. */
  lemma StartReached(D: seq<seq<int>>, n: int, start: Status)
    requires IsFiniteMatrix(D, n) && 0 <= start.curr < n <= Capacity && |Members(start.bits)| < n
    ensures Reaches(D, n, start, map[start := 0], map[start := [start.curr]])
  {
    WalkStart(n, start);
  }

  /** The key h * num_goals + (num_goals - 1) of the start state is packed as every key is. */
  lemma StartPacked(n: int, start: Status, h: int, key: int)
    requires key == Pack(h, n - 1, n)
    ensures Keys(n, start, map[start := 0], map[start := key], map[start := h])
  {
    assert Remainder(n, start, start) == n - 1;
  }

  /** The start state's estimate is its heuristic. */
  lemma StartEstimated(D: seq<seq<int>>, n: int, start: Status, h: int)
    requires IsFiniteMatrix(D, n) && 0 <= start.curr < n <= Capacity && h == Heuristic(D, n, start)
    ensures Estimates(D, n, map[start := h])
  {
  }

  /**
   * Every recorded state is reached from the start: it has a walk from the
   * start's goal through goals of the start's subset, its subset is the
   * goals the walk has not visited, and its g_ is the walk's length.
   */
  ghost predicate Reaches(D: seq<seq<int>>, n: int, origin: Status, C: map<Status, int>, T: map<Status, seq<int>>)
    requires IsFiniteMatrix(D, n)
  {
    |Members(origin.bits)| < n &&
    forall s {:trigger s in T} :: s in C ==>
      s in T && Walk(n, origin, T[s], s) && OnGoals(n, T[s]) && C[s] == TourCost(D, n, T[s])
  }

  /** E holds the heuristic of every state it has an entry for. */
  ghost predicate Estimates(D: seq<seq<int>>, n: int, E: map<Status, int>)
    requires IsFiniteMatrix(D, n)
  {
    n <= Capacity &&
    forall s {:trigger Heuristic(D, n, s)} :: s in E && 0 <= s.curr < n ==> E[s] == Heuristic(D, n, s)
  }

  /**
   * The key of every queued state packs f = g_ + h, h its entry in E, with
   * its remainder: (g_ + h) * num_goals + Remainder.
   */
  ghost predicate Keys(n: int, origin: Status, C: map<Status, int>, Q: map<Status, int>, E: map<Status, int>) {
    forall s {:trigger Q[s]} :: s in Q ==> s in C && s in E && Q[s] == Pack(C[s] + E[s], Remainder(n, origin, s), n)
  }

  /** Adding the heuristic of a state keeps the estimates right. */
  lemma EstimatesAdded(D: seq<seq<int>>, n: int, E: map<Status, int>, next: Status, h: int)
    requires IsFiniteMatrix(D, n) && Estimates(D, n, E) && 0 <= next.curr < n
    requires h == Heuristic(D, n, next)
    ensures Estimates(D, n, E[next := h])
  {
  }

  /** Clearing a goal that is on leaves the remainder one lower. */
  lemma RemainingStep(n: int, origin: Status, curr: Status, id: int)
    requires InRange(id) && HasBit(curr.bits, id)
    ensures Remainder(n, origin, Status(id, SetBit(curr.bits, id, false))) == Remainder(n, origin, curr) - 1
  {
    SetBitMembers(curr.bits, id, false);
    assert id in Members(curr.bits);
  }

  /** A move from curr to its goal id reaches next, by the walk to curr and then id. */
  lemma ReachStep(D: seq<seq<int>>, n: int, origin: Status, C: map<Status, int>, T: map<Status, seq<int>>,
                  curr: Status, id: int, g: int)
    requires IsFiniteMatrix(D, n) && Reaches(D, n, origin, C, T) && curr in C && curr in T && 0 <= id < n
    requires 0 <= curr.curr < n <= Capacity && HasBit(curr.bits, id) && g == C[curr] + D[curr.curr][id]
    ensures var next := Status(id, SetBit(curr.bits, id, false));
            Reaches(D, n, origin, C[next := g], T[next := T[curr] + [id]])
  {
    WalkStep(D, n, origin, T[curr], curr, id);
  }

  /** The decrease-key keeps every key packed: the saving times n comes off next's key. */
  lemma KeysLowered(n: int, origin: Status, C: map<Status, int>, C': map<Status, int>,
                    Q: map<Status, int>, Q': map<Status, int>, E: map<Status, int>, next: Status, g: int)
    requires Keys(n, origin, C, Q, E) && next in Q && next in C
    requires C' == C[next := g] && Q' == Q[next := Q[next] - (C[next] - g) * n]
    ensures Keys(n, origin, C', Q', E)
  {
    assert next in E && Q[next] == Pack(C[next] + E[next], Remainder(n, origin, next), n);
    Lowered(C[next], g, E[next], Remainder(n, origin, next), n);
  }

  /** Recording a state that is not queued, with any g and part, keeps every key packed. */
  lemma KeysRecorded(n: int, origin: Status, C: map<Status, int>, Q: map<Status, int>, E: map<Status, int>,
                     next: Status, g: int)
    requires Keys(n, origin, C, Q, E) && next !in Q
    ensures Keys(n, origin, C[next := g], Q, E)
  {
  }

  /** An estimate for a state without a record changes no key. */
  lemma KeysEstimated(n: int, origin: Status, C: map<Status, int>, Q: map<Status, int>, E: map<Status, int>,
                      next: Status, h: int)
    requires Keys(n, origin, C, Q, E) && next !in C
    ensures Keys(n, origin, C, Q, E[next := h])
  {
  }

  /** Pushing a recorded state with the key its g and part make keeps every key packed. */
  lemma KeysPushed(n: int, origin: Status, C: map<Status, int>, Q: map<Status, int>, E: map<Status, int>,
                   next: Status, key: int)
    requires Keys(n, origin, C, Q, E) && next in C && next in E
    requires key == Pack(C[next] + E[next], Remainder(n, origin, next), n)
    ensures Keys(n, origin, C, Q[next := key], E)
  {
  }

  /** Popping a state keeps every other key packed. */
  lemma KeysPopped(n: int, origin: Status, C: map<Status, int>, Q: map<Status, int>, E: map<Status, int>, s: Status)
    requires Keys(n, origin, C, Q, E)
    ensures Keys(n, origin, C, Q - {s}, E)
  {
    forall t | t in Q - {s} ensures t in C && t in E && (Q - {s})[t] == Pack(C[t] + E[t], Remainder(n, origin, t), n) {
      assert Q[t] == (Q - {s})[t];
    }
  }

  /**
   * The key of a queued state unpacks: it is reached by a walk of length
   * g_, and its key is (g_ + h) * num_goals plus a remainder below
   * num_goals that counts the goals it has left, h being its entry in E.
   */
  lemma QueuedKey(D: seq<seq<int>>, n: int, origin: Status, rec: map<Status, Node>, T: map<Status, seq<int>>,
                  Q: map<Status, int>, E: map<Status, int>, s: Status)
    requires IsFiniteMatrix(D, n) && Reaches(D, n, origin, Costs(rec), T) && Keys(n, origin, Costs(rec), Q, E) && s in Q
    ensures s in rec && s in T && Walk(n, origin, T[s], s) && OnGoals(n, T[s]) && rec[s].g == TourCost(D, n, T[s])
    ensures 0 <= s.curr < n && 0 <= Remainder(n, origin, s) < n
    ensures s in E && Q[s] == Pack(rec[s].g + E[s], Remainder(n, origin, s), n)
  {
    QueuedPack(n, origin, rec, Q, E, s);
    Reached(D, n, origin, Costs(rec), T, s);
    WalkFacts(n, origin, T[s], s);
    SubsetCard(Members(s.bits), Members(origin.bits));
    RemainderBound(n, origin, s);
  }

  /** The key of a queued state packs its record's g_ and its estimate. */
  lemma QueuedPack(n: int, origin: Status, rec: map<Status, Node>, Q: map<Status, int>, E: map<Status, int>, s: Status)
    requires Keys(n, origin, Costs(rec), Q, E) && s in Q
    ensures s in rec && s in Costs(rec) && s in E && Q[s] == Pack(rec[s].g + E[s], Remainder(n, origin, s), n)
  {
    assert Q[s] == Pack(Costs(rec)[s] + E[s], Remainder(n, origin, s), n);
  }

  /** A recorded state's walk, from the invariant that every record has one. */
  lemma Reached(D: seq<seq<int>>, n: int, origin: Status, C: map<Status, int>, T: map<Status, seq<int>>, s: Status)
    requires IsFiniteMatrix(D, n) && Reaches(D, n, origin, C, T) && s in C
    ensures s in T && Walk(n, origin, T[s], s) && OnGoals(n, T[s]) && C[s] == TourCost(D, n, T[s])
    ensures |Members(origin.bits)| < n
  {
  }

  /** A state with no more goals left than the start has a remainder below num_goals. */
  lemma RemainderBound(n: int, origin: Status, s: Status)
    requires |Members(s.bits)| <= |Members(origin.bits)| < n
    ensures 0 <= Remainder(n, origin, s) < n
  {
  }

  /** Every recorded state is one of the states on num_goals goals, so there are no more records than those. */
  lemma RecordBounded(D: seq<seq<int>>, n: int, origin: Status, rec: map<Status, Node>, T: map<Status, seq<int>>)
    requires IsFiniteMatrix(D, n) && Reaches(D, n, origin, Costs(rec), T)
    ensures |rec| <= |Universe(n)|
  {
    forall s | s in rec ensures s in Universe(n) {
      assert s in Costs(rec) && s in T;
      WalkFacts(n, origin, T[s], s);
      InUniverse(n, s);
    }
    SubsetCard(rec.Keys, Universe(n));
  }

  class Searcher {
    /** num_goals */
    const n: int
    /** dist[i][j] for goals i, j below n */
    const dist: seq<seq<int>>
    /** The memo of get_mst. */
    var mst: map<Bits, int>
    /** The node record of every state met so far. */
    var record: map<Status, Node>
    const heap: array<Status>
    const fHeap: array<int>
    var heapSize: int
    /** The start state of the search. */
    ghost var origin: Status
    /** For every recorded state, the walk from the start its g_ is the length of. */
    ghost var tours: map<Status, seq<int>>
    /** For every queued state, the heuristic its key was computed with. */
    ghost var estimates: map<Status, int>

    ghost predicate Shape()
      reads this`heapSize
    {
      heap.Length == MaxHeapSize && fHeap.Length == MaxHeapSize && 0 <= heapSize < MaxHeapSize
    }

    /** The open list is a min-heap on f_heap, and record's heap_index_ fields point into it. */
    ghost predicate HeapValid()
      reads this`heapSize, this`record, heap, fHeap
    {
      Shape() && Ordered(fHeap[..], heapSize) && Indexed(heap[..], heapSize, record)
    }

    /** The memo holds get_mst's value for every subset it has seen. */
    ghost predicate MemoValid()
      reads this`mst
    {
      0 < n <= Capacity && IsFiniteMatrix(dist, n) &&
      forall b :: b in mst ==> mst[b] == MstOf(dist, n, b)
    }

    /** The queued states with their keys. */
    ghost function Queue(): map<Status, int>
      reads this`record, fHeap
    {
      Queued(record, fHeap[..])
    }

    constructor (n: int, dist: seq<seq<int>>)
      requires 0 < n <= Capacity && IsFiniteMatrix(dist, n)
      ensures this.n == n && this.dist == dist
      ensures mst == map[] && record == map[] && heapSize == 0
      ensures MemoValid() && HeapValid() && fresh(heap) && fresh(fHeap)
    {
      this.n := n;
      this.dist := dist;
      mst := map[];
      record := map[];
      heap := new Status[MaxHeapSize](_ => Status(0, NoBits));
      fHeap := new int[MaxHeapSize];
      heapSize := 0;
    }

    // -------------------------------------------------------------------
    // The heap.

    /**
     * The swap step of slip_up and slip_down: both back-pointers are
     * rewritten, then the two slots of heap and f_heap are exchanged.
     */
    method SwapSlots(i: int, j: int)
      requires Shape() && 0 <= i < heapSize && 0 <= j < heapSize
      requires heap[i] in record && heap[j] in record
      modifies this`record, heap, fHeap
      ensures record == SwapRecords(old(record), old(heap[..]), i, j)
      ensures heap[..] == Swap(old(heap[..]), i, j) && fHeap[..] == Swap(old(fHeap[..]), i, j)
    {
      record := SetIndex(SetIndex(record, heap[i], j), heap[j], i);
      heap[i], heap[j] := heap[j], heap[i];
      fHeap[i], fHeap[j] := fHeap[j], fHeap[i];
    }

    /**
     * slip_up: move slot index up while its parent has a larger key,
     * rewriting both back-pointers at every swap.
     */
    method SlipUp(index: int)
      requires Shape() && 0 <= index < heapSize
      requires OrderedUpAt(fHeap[..], heapSize, index) && Indexed(heap[..], heapSize, record)
      modifies this`record, heap, fHeap
      ensures HeapValid() && Queue() == old(Queue()) && SameCosts(record, old(record))
    {
      var k := index;
      while k > 0
        invariant Shape() && OrderedUpAt(fHeap[..], heapSize, k) && Indexed(heap[..], heapSize, record)
        invariant Queue() == old(Queue()) && SameCosts(record, old(record))
        decreases k
      {
        var parent := (k - 1) / 2;
        if fHeap[parent] <= fHeap[k] {
          break;
        }
        SwapUp(fHeap[..], heapSize, k);
        SwapIndexed(fHeap[..], heap[..], heapSize, record, parent, k);
        SwapSlots(parent, k);
        k := parent;
      }
      UpDone(fHeap[..], heapSize, k);
    }

    /**
     * slip_down: move slot index down while its smaller child has a smaller
     * key, rewriting both back-pointers at every swap.
     */
    method SlipDown(index: int)
      requires Shape() && 0 <= index < heapSize
      requires OrderedDownAt(fHeap[..], heapSize, index) && Indexed(heap[..], heapSize, record)
      modifies this`record, heap, fHeap
      ensures HeapValid() && Queue() == old(Queue()) && SameCosts(record, old(record))
    {
      var k := index;
      while 2 * k + 1 < heapSize
        invariant Shape() && OrderedDownAt(fHeap[..], heapSize, k) && Indexed(heap[..], heapSize, record)
        invariant Queue() == old(Queue()) && SameCosts(record, old(record))
        decreases heapSize - k
      {
        var child := SmallerChild(fHeap[..], heapSize, k);
        if fHeap[child] >= fHeap[k] {
          break;
        }
        SwapDown(fHeap[..], heapSize, k, child);
        SwapIndexed(fHeap[..], heap[..], heapSize, record, k, child);
        SwapSlots(k, child);
        k := child;
      }
      DownDone(fHeap[..], heapSize, k);
    }

    /**
     * pop: take the root, the queued state of least key, off the heap; its
     * heap_index_ becomes -1 and the last slot moves to the root.
     */
    method Pop() returns (result: Status, fValue: int)
      requires HeapValid() && heapSize > 0
      modifies this`record, this`heapSize, heap, fHeap
      ensures HeapValid() && heapSize == old(heapSize) - 1
      ensures result in old(Queue()) && fValue == old(Queue())[result]
      ensures forall s :: s in old(Queue()) ==> fValue <= old(Queue())[s]
      ensures Queue() == old(Queue()) - {result}
      ensures SameCosts(record, old(record)) && result in record && record[result].heapIndex == -1
    {
      ghost var f, h, rec := fHeap[..], heap[..], record;
      RootLeast(f, h, heapSize, rec);
      result := heap[0];
      fValue := fHeap[0];
      record := SetIndex(record, result, -1);
      heapSize := heapSize - 1;
      if heapSize == 0 {
        PopLast(f, h, rec);
        return;
      }
      PopIndexed(f, h, heapSize + 1, rec);
      Popped(f, heapSize + 1);
      heap[0] := heap[heapSize];
      fHeap[0] := fHeap[heapSize];
      record := SetIndex(record, heap[0], 0);
      assert heap[..] == h[0 := h[heapSize]];
      assert fHeap[..] == f[0 := f[heapSize]];
      SlipDown(0);
    }

    /**
     * push: a state with no slot takes the next free slot with key fValue
     * and moves up. A full heap is the "Heap overflow." abort: the result
     * is false and nothing changes.
     */
    method Push(status: Status, fValue: int) returns (ok: bool)
      requires HeapValid() && status in record && record[status].heapIndex == -1
      modifies this`record, this`heapSize, heap, fHeap
      ensures ok <==> old(heapSize) != MaxHeapSize - 1
      ensures HeapValid() && SameCosts(record, old(record))
      ensures ok ==> heapSize == old(heapSize) + 1 && Queue() == old(Queue())[status := fValue]
      ensures !ok ==> heapSize == old(heapSize) && record == old(record) && Queue() == old(Queue())
    {
      if heapSize == MaxHeapSize - 1 {
        return false;
      }
      ghost var f, h, rec := fHeap[..], heap[..], record;
      PushIndexed(f, h, heapSize, rec, status, fValue);
      Pushed(f, heapSize, fValue);
      heap[heapSize] := status;
      fHeap[heapSize] := fValue;
      heapSize := heapSize + 1;
      record := SetIndex(record, status, heapSize - 1);
      assert heap[..] == h[heapSize - 1 := status];
      assert fHeap[..] == f[heapSize - 1 := fValue];
      SlipUp(heapSize - 1);
      ok := true;
    }

    /**
     * The decrease-key of work: a queued state reached at a lower cost g
     * gets g_ = g, its key lowered by the saving times num_goals, and moves
     * up. Every key stays packed.
     */
    method DecreaseKey(s: Status, g: int)
      requires HeapValid() && Keyed() && n > 0 && s in record && record[s].heapIndex != -1 && g < record[s].g
      modifies this`record, heap, fHeap
      ensures HeapValid() && Keyed()
      ensures record.Keys == old(record.Keys) && record[s].g == g && Costs(record) == old(Costs(record))[s := g]
      ensures forall t :: t in record && t != s ==> record[t].g == old(record[t].g)
      ensures forall t :: t in record ==> record[t].lastGoal == old(record[t].lastGoal)
      ensures s in old(Queue()) && Queue() == old(Queue())[s := old(Queue()[s]) - (old(record[s].g) - g) * n]
    {
      ghost var C, Q := Costs(record), Queue();
      Lower(s, g);
      KeysLowered(n, origin, C, Costs(record), Q, Queue(), estimates, s, g);
    }

    /** The heap half of the decrease-key: the new g_, the lowered key, and slip_up. */
    method Lower(s: Status, g: int)
      requires HeapValid() && n > 0 && s in record && record[s].heapIndex != -1 && g < record[s].g
      modifies this`record, heap, fHeap
      ensures HeapValid()
      ensures record.Keys == old(record.Keys) && record[s].g == g && Costs(record) == old(Costs(record))[s := g]
      ensures forall t :: t in record && t != s ==> record[t].g == old(record[t].g)
      ensures forall t :: t in record ==> record[t].lastGoal == old(record[t].lastGoal)
      ensures s in old(Queue()) && Queue() == old(Queue())[s := old(Queue()[s]) - (old(record[s].g) - g) * n]
    {
      ghost var f, h, rec := fHeap[..], heap[..], record;
      var k := record[s].heapIndex;
      var v := fHeap[k] - (record[s].g - g) * n;
      QueuedSlot(f, h, heapSize, rec, k);
      DecreaseIndexed(f, h, heapSize, rec, s, g, v);
      Decreased(f, heapSize, k, v);
      fHeap[k] := v;
      record := record[s := record[s].(g := g)];
      assert fHeap[..] == f[k := v];
      SlipUp(k);
      CostsChanged(rec, record, s, g);
    }

    // -------------------------------------------------------------------
    // The heuristic.

    /** The first loop of get_mst: the members of bits below num_goals, in increasing order, into focus. */
    method CollectFocus(bits: Bits, focus: array<int>) returns (numFocus: int)
      requires 0 <= n <= Capacity && focus.Length == n
      modifies focus
      ensures 0 <= numFocus <= n && focus[..numFocus] == FocusBelow(bits, n)
    {
      numFocus := 0;
      for id := 0 to n
        invariant 0 <= numFocus <= id && focus[..numFocus] == FocusBelow(bits, id)
      {
        if HasBit(bits, id) {
          focus[numFocus] := id;
          numFocus := numFocus + 1;
          assert focus[..numFocus] == focus[..numFocus - 1] + [id];
        }
      }
    }

    /**
     * The selection loop of one round of get_mst: the first unused
     * position of least cost strictly below inf, or -1.
     */
    method PickNext(used: array<bool>, minCost: array<int>, m: int) returns (next: int, optCost: int)
      requires 0 <= m <= used.Length && m <= minCost.Length
      ensures next == Pick(used[..m], minCost[..m])
      ensures next == -1 ==> optCost == Inf
      ensures next != -1 ==> 0 <= next < m && optCost == minCost[next]
    {
      ghost var U, C := used[..m], minCost[..m];
      next, optCost := -1, Inf;
      for id := 0 to m
        invariant PickFrom(U, C, id, next, optCost) == Pick(U, C)
        invariant next == -1 ==> optCost == Inf
        invariant next != -1 ==> 0 <= next < id && optCost == minCost[next]
      {
        if !used[id] && minCost[id] < optCost {
          next := id;
          optCost := minCost[id];
        }
      }
    }

    /** The relaxation loop of one round of get_mst, after position next joined the tree. */
    method RelaxCosts(focus: array<int>, m: int, used: array<bool>, minCost: array<int>, next: int)
      requires IsFiniteMatrix(dist, n) && 0 <= m <= focus.Length && IsFocus(focus[..m], n)
      requires m == used.Length == minCost.Length && 0 <= next < m && focus != minCost
      modifies minCost
      ensures minCost[..] == Relax(dist, n, focus[..m], used[..], old(minCost[..]), next)
    {
      ghost var C := minCost[..];
      ghost var R := Relax(dist, n, focus[..m], used[..], C, next);
      for id := 0 to m
        invariant forall j :: 0 <= j < id ==> minCost[j] == R[j]
        invariant forall j :: id <= j < m ==> minCost[j] == C[j]
      {
        if !used[id] && minCost[id] > dist[focus[next]][focus[id]] {
          minCost[id] := dist[focus[next]][focus[id]];
        }
      }
    }

    /** The initialisation loop of get_mst: min_cost from the first focus goal, and only it used. */
    method StartTree(focus: array<int>, m: int, minCost: array<int>, used: array<bool>)
      requires IsFiniteMatrix(dist, n) && 0 < m <= focus.Length && IsFocus(focus[..m], n)
      requires m == minCost.Length == used.Length && focus != minCost
      modifies minCost, used
      ensures minCost[..] == InitCost(dist, n, focus[..m]) && used[..] == InitUsed(m)
    {
      ghost var F := focus[..m];
      for id := 0 to m
        invariant forall j :: 0 <= j < id ==> minCost[j] == dist[F[0]][F[j]] && used[j] == (j < 1)
      {
        assert focus[0] == F[0] && focus[id] == F[id];
        minCost[id] := dist[focus[0]][focus[id]];
        used[id] := id < 1;
      }
    }

    /** The rounds of get_mst: each adds the cheapest unused goal to the tree and relaxes the others. */
    method GrowTree(focus: array<int>, m: int, minCost: array<int>, used: array<bool>) returns (answer: int)
      requires IsFiniteMatrix(dist, n) && 0 < m <= focus.Length && IsFocus(focus[..m], n)
      requires m == minCost.Length == used.Length && focus != minCost
      requires minCost[..] == InitCost(dist, n, focus[..m]) && used[..] == InitUsed(m)
      modifies minCost, used
      ensures answer == PrimWeight(dist, n, focus[..m])
    {
      ghost var F := focus[..m];
      InitUnused(m);
      answer := 0;
      var count := 1;
      while count < m
        invariant 1 <= count <= m && focus[..m] == F
        invariant FiniteCosts(minCost[..]) && Unused(used[..]) == m - count
        invariant answer + Rounds(dist, n, F, used[..], minCost[..], count) == PrimWeight(dist, n, F)
        decreases m - count
      {
        var optCost := GrowRound(focus, m, minCost, used, count);
        answer := answer + optCost;
        count := count + 1;
      }
    }

    /**
     * One round of get_mst: the cheapest unused goal joins the tree, its
     * link cost is returned, and the others are relaxed against it.
     */
    method GrowRound(focus: array<int>, m: int, minCost: array<int>, used: array<bool>, ghost count: int)
      returns (optCost: int)
      requires IsFiniteMatrix(dist, n) && 0 < m <= focus.Length && IsFocus(focus[..m], n)
      requires m == minCost.Length == used.Length && focus != minCost
      requires FiniteCosts(minCost[..]) && 1 <= count < m && Unused(used[..]) == m - count
      modifies minCost, used
      ensures FiniteCosts(minCost[..]) && Unused(used[..]) == m - count - 1
      ensures optCost + Rounds(dist, n, focus[..m], used[..], minCost[..], count + 1)
              == Rounds(dist, n, focus[..m], old(used[..]), old(minCost[..]), count)
    {
      ghost var F, U, C := focus[..m], used[..], minCost[..];
      var next, cost := PickNext(used, minCost, m);
      assert U == used[..m] && C == minCost[..m];
      PickLeast(U, C);
      used[next] := true;
      assert used[..] == U[next := true];
      UnusedSet(U, next);
      RelaxCosts(focus, m, used, minCost, next);
      RelaxFinite(dist, n, F, used[..], C, next);
      optCost := cost;
    }

    /**
     * get_mst: the memoised weight of Prim's tree over the goals of bits.
     * A subset seen before is answered from the memo; otherwise the tree
     * is grown from the first focus goal and the answer is memoised.
     */
    method GetMst(bits: Bits) returns (answer: int)
      requires MemoValid()
      modifies this`mst
      ensures MemoValid() && answer == MstOf(dist, n, bits)
      ensures mst == old(mst)[bits := answer]
    {
      if bits in mst {
        answer := mst[bits];
        assert mst == mst[bits := answer];
        return;
      }
      answer := ComputeMst(bits);
      mst := mst[bits := answer];
    }

    /**
     * The branch of get_mst that misses the memo: collect the focus goals,
     * then grow Prim's tree from the first of them. An empty subset weighs 0.
     */
    method ComputeMst(bits: Bits) returns (answer: int)
      requires 0 < n <= Capacity && IsFiniteMatrix(dist, n)
      ensures answer == MstOf(dist, n, bits)
    {
      var focus := new int[n];
      var numFocus := CollectFocus(bits, focus);
      var minCost := new int[numFocus];
      var used := new bool[numFocus];
      answer := 0;
      if numFocus > 0 {
        StartTree(focus, numFocus, minCost, used);
        answer := GrowTree(focus, numFocus, minCost, used);
      }
    }

    /** The loop of get_heuristic: the distance from the current goal to the nearest goal left, or inf. */
    method FirstPath(status: Status) returns (firstPath: int)
      requires IsFiniteMatrix(dist, n) && 0 <= status.curr < n <= Capacity
      ensures firstPath == FirstPathBelow(dist, n, status.curr, status.bits, n)
    {
      firstPath := Inf;
      for id := 0 to n
        invariant firstPath == FirstPathBelow(dist, n, status.curr, status.bits, id)
      {
        if HasBit(status.bits, id) && dist[status.curr][id] < firstPath {
          firstPath := dist[status.curr][id];
        }
      }
    }

    /**
     * get_heuristic, corrected: the distance from the current goal to the
     * nearest remaining goal plus the tree weight of the remaining goals,
     * and 0 when no goal remains (the source returns inf + 0 there).
     */
    method GetHeuristic(status: Status) returns (h: int)
      requires MemoValid() && 0 <= status.curr < n
      modifies this`mst
      ensures MemoValid() && mst == old(mst)[status.bits := MstOf(dist, n, status.bits)]
      ensures h == Heuristic(dist, n, status)
    {
      var m := GetMst(status.bits);
      var firstPath := FirstPath(status);
      if firstPath == Inf {
        h := 0;
      } else {
        h := firstPath + m;
      }
    }

    // -------------------------------------------------------------------
    // The search.

    /** Every recorded state is reached from the start, with g_ the length of its walk. */
    ghost predicate Reached()
      reads this`mst, this`record, this`origin, this`tours
    {
      MemoValid() && Reaches(dist, n, origin, Costs(record), tours)
    }

    /** The key of every queued state packs f = g + h and the goals it has left. */
    ghost predicate Keyed()
      reads this`record, this`origin, this`estimates, fHeap
    {
      Keys(n, origin, Costs(record), Queue(), estimates)
    }

    /** The estimates are the heuristic of their states. */
    ghost predicate Estimated()
      reads this`mst, this`estimates
    {
      MemoValid() && Estimates(dist, n, estimates)
    }

    ghost predicate SearchInv()
      reads this`heapSize, this`mst, this`record, this`origin, this`tours, this`estimates, heap, fHeap
    {
      HeapValid() && Reached() && Keyed()
    }

    /** Every record that has left the open list was expanded. */
    ghost predicate Settled()
      reads this`mst, this`record, fHeap
    {
      MemoValid() && Settles(dist, n, record, Queue())
    }

    /**
     * The useless test of work: the move from curr to goal id is skipped
     * when another goal left lies on a shortest way to id.
     */
    method IsUseless(curr: Status, id: int) returns (useless: bool)
      requires IsFiniteMatrix(dist, n) && 0 <= curr.curr < n <= Capacity && 0 <= id < n
      ensures useless <==> Useless(dist, n, curr, id)
    {
      useless := false;
      for other := 0 to n
        invariant !useless
        invariant forall o :: 0 <= o < other ==> !Bypass(dist, n, curr, id, o)
      {
        if other != id && other != curr.curr && HasBit(curr.bits, other)
           && dist[curr.curr][id] == dist[curr.curr][other] + dist[other][id] {
          useless := true;
          assert Bypass(dist, n, curr, id, other);
          return;
        }
      }
    }

    /**
     * The existing-record branch of work after a cheaper way to next was
     * found: the queued state gets the new g_ and the walk through curr.
     */
    method Improve(curr: Status, id: int, next: Status, gValue: int)
      requires SearchInv() && curr in record && 0 <= curr.curr < n && 0 <= id < n && HasBit(curr.bits, id)
      requires next == Status(id, SetBit(curr.bits, id, false)) && gValue == record[curr].g + dist[curr.curr][id]
      requires next in record && gValue < record[next].g && record[next].heapIndex != -1
      modifies this`record, this`tours, heap, fHeap
      ensures SearchInv() && record.Keys == old(record.Keys) && |record| == |old(record)|
      ensures record[curr].g == old(record[curr].g) && record[next].g == gValue
      ensures record[next].lastGoal == old(record[next].lastGoal)
      ensures forall s :: s in old(record) && s != next ==> record[s].g == old(record[s].g)
      ensures next in old(Queue()) && Queue() == old(Queue())[next := old(Queue()[next]) - (old(record[next].g) - gValue) * n]
    {
      ghost var C := Costs(record);
      SetBitEffect(curr.bits, id, false, id);
      DecreaseKey(next, gValue);
      Retour(curr, id, next, gValue, C);
    }

    /**
     * The tour to next becomes the tour to curr followed by goal id, which
     * reaches next at its new cost gValue (C holds the costs before the
     * decrease-key). This is the ghost end of Improve's decrease-key
     * (pacman.cc:404-406), split off from DecreaseKey only to keep the two
     * proofs small.
     */
    method Retour(curr: Status, id: int, next: Status, gValue: int, ghost C: map<Status, int>)
      requires MemoValid() && Reaches(dist, n, origin, C, tours) && curr in C && curr in tours
      requires 0 <= curr.curr < n && 0 <= id < n && HasBit(curr.bits, id) && gValue == C[curr] + dist[curr.curr][id]
      requires next == Status(id, SetBit(curr.bits, id, false)) && Costs(record) == C[next := gValue]
      modifies this`tours
      ensures Reached() && tours == old(tours)[next := old(tours)[curr] + [id]] && Queue() == old(Queue())
    {
      ReachStep(dist, n, origin, C, tours, curr, id, gValue);
      tours := tours[next := tours[curr] + [id]];
    }

    /**
     * The first half of the new-record branch of work: next, reached from
     * curr by goal id, is recorded with g_ = gValue, last_goal_ = id and no
     * heap slot, and its estimate is h, its heuristic. It is
     * the statement record[next] = Node(g_value, id, -1) of pacman.cc:408,
     * with its ghost bookkeeping split between Estimate and AddRecord.
     */
    method Record(curr: Status, id: int, next: Status, gValue: int, h: int)
      requires SearchInv() && Estimated() && curr in record && 0 <= curr.curr < n && 0 <= id < n && HasBit(curr.bits, id)
      requires next == Status(id, SetBit(curr.bits, id, false)) && gValue == record[curr].g + dist[curr.curr][id]
      requires next !in record && h == Heuristic(dist, n, next)
      modifies this`record, this`tours, this`estimates
      ensures SearchInv() && Estimated() && Queue() == old(Queue())
      ensures record == old(record)[next := Node(gValue, id, -1)]
      ensures estimates == old(estimates)[next := h]
    {
      Estimate(next, h);
      AddRecord(curr, id, next, gValue);
    }

    /**
     * The estimate of a state not recorded yet is its heuristic. Estimate and
     * AddRecord are the two halves of Record, that is of the one statement
     * record[next] = Node(g_value, id, -1) (pacman.cc:408), split so that each
     * re-establishes its own part of the search invariant.
     */
    method Estimate(next: Status, h: int)
      requires SearchInv() && Estimated() && 0 <= next.curr < n && next !in record && h == Heuristic(dist, n, next)
      modifies this`estimates
      ensures SearchInv() && Estimated() && estimates == old(estimates)[next := h]
    {
      EstimatesAdded(dist, n, estimates, next, h);
      KeysEstimated(n, origin, Costs(record), Queue(), estimates, next, h);
      estimates := estimates[next := h];
    }

    /**
     * next, reached from curr by goal id, gets its record and its walk: the
     * record half of Record (pacman.cc:408), beside Estimate.
     */
    method AddRecord(curr: Status, id: int, next: Status, gValue: int)
      requires SearchInv() && curr in record && 0 <= curr.curr < n && 0 <= id < n && HasBit(curr.bits, id)
      requires next == Status(id, SetBit(curr.bits, id, false)) && gValue == record[curr].g + dist[curr.curr][id]
      requires next !in record
      modifies this`record, this`tours
      ensures SearchInv() && Queue() == old(Queue())
      ensures record == old(record)[next := Node(gValue, id, -1)]
    {
      ghost var C, Q := Costs(record), Queue();
      ReachStep(dist, n, origin, C, tours, curr, id, gValue);
      AddRecordIndexed(fHeap[..], heap[..], heapSize, record, next, Node(gValue, id, -1));
      CostsAdded(record, next, Node(gValue, id, -1));
      QueuedKeys(fHeap[..], heap[..], heapSize, record, next);
      KeysRecorded(n, origin, C, Q, estimates, next, gValue);
      record := record[next := Node(gValue, id, -1)];
      tours := tours[next := tours[curr] + [id]];
    }

    /**
     * push, with the key a recorded state's g_ and estimate make: the
     * search's invariants all stay, and a full heap changes nothing.
     */
    method Enqueue(s: Status, f: int, r: int) returns (ok: bool)
      requires SearchInv() && s in record && record[s].heapIndex == -1 && s in estimates
      requires f == record[s].g + estimates[s] && r == Remainder(n, origin, s)
      modifies this`record, this`heapSize, heap, fHeap
      ensures SearchInv() && SameCosts(record, old(record))
      ensures ok <==> old(heapSize) != MaxHeapSize - 1
      ensures ok ==> heapSize == old(heapSize) + 1 && Queue() == old(Queue())[s := Pack(f, r, n)]
      ensures !ok ==> heapSize == old(heapSize) && record == old(record) && Queue() == old(Queue())
    {
      ghost var rec, Q := record, Queue();
      var key := Pack(f, r, n);
      ok := Push(s, key);
      CostsKept(record, rec);
      if ok {
        KeysPushed(n, origin, Costs(rec), Q, estimates, s, key);
      }
    }

    /**
     * The new-record branch of work: next is recorded, then pushed with the
     * key (g + h) * num_goals + (num_remaining - 1), h being next's
     * heuristic; ok is false when the heap is full.
     */
    method Discover(curr: Status, id: int, next: Status, gValue: int, h: int, numRemaining: int) returns (ok: bool)
      requires SearchInv() && Estimated() && curr in record && 0 <= curr.curr < n && 0 <= id < n && HasBit(curr.bits, id)
      requires next == Status(id, SetBit(curr.bits, id, false)) && gValue == record[curr].g + dist[curr.curr][id]
      requires next !in record && h == Heuristic(dist, n, next) && numRemaining == Remainder(n, origin, curr)
      modifies this`record, this`heapSize, this`tours, this`estimates, heap, fHeap
      ensures SearchInv() && Estimated() && record.Keys == old(record.Keys) + {next} && |record| == |old(record)| + 1
      ensures ok <==> old(heapSize) != MaxHeapSize - 1
      ensures ok ==> heapSize == old(heapSize) + 1
      ensures forall s :: s in old(record) ==> record[s].g == old(record[s].g)
      ensures record[next].g == gValue && record[next].lastGoal == id
      ensures ok ==> Queue() == old(Queue())[next := Pack(gValue + h, numRemaining - 1, n)]
      ensures !ok ==> Queue() == old(Queue()) && heapSize == old(heapSize) &&
                      record == old(record)[next := Node(gValue, id, -1)]
    {
      Record(curr, id, next, gValue, h);
      RemainingStep(n, origin, curr, id);
      var f, r := gValue + h, numRemaining - 1;
      ok := Enqueue(next, f, r);
      PushKey(f, r, gValue, h, numRemaining, n);
    }

    /**
     * pop, with what the invariants say about the state it takes: it is the
     * queued state of least key, reached by a walk of length g_, and its key
     * unpacks to g_ + h and the number of goals it has left.
     */
    method PopBest() returns (curr: Status, currF: int)
      requires SearchInv() && Estimated() && heapSize > 0
      modifies this`record, this`heapSize, heap, fHeap
      ensures SearchInv() && Estimated() && SameCosts(record, old(record)) && heapSize == old(heapSize) - 1
      ensures curr in old(Queue()) && currF == old(Queue())[curr] && Queue() == old(Queue()) - {curr}
      ensures forall s :: s in old(Queue()) ==> currF <= old(Queue())[s]
      ensures curr in record && curr in tours && Walk(n, origin, tours[curr], curr) && OnGoals(n, tours[curr])
      ensures record[curr].g == TourCost(dist, n, tours[curr]) && record[curr].heapIndex == -1
      ensures 0 <= curr.curr < n && 0 <= Remainder(n, origin, curr) < n
      ensures curr in estimates && currF == Pack(record[curr].g + estimates[curr], Remainder(n, origin, curr), n)
    {
      ghost var C, Q := Costs(record), Queue();
      ghost var rec := record;
      curr, currF := Pop();
      CostsKept(record, rec);
      QueuedKey(dist, n, origin, record, tours, Q, estimates, curr);
      KeysPopped(n, origin, C, Q, estimates, curr);
    }

    /**
     * One move of work's inner loop, from curr (popped with key currF and
     * g_ = g) to its goal id: the consistency check, then either nothing
     * (no cheaper), the heap-index abort, the decrease-key, or a new record
     * and its push.
     */
    method TryMove(curr: Status, g: int, currF: int, numRemaining: int, id: int) returns (result: Expansion)
      requires SearchInv() && Estimated() && curr in record && g == record[curr].g
      requires 0 <= curr.curr < n && 0 <= id < n && HasBit(curr.bits, id)
      requires numRemaining == Remainder(n, origin, curr)
      modifies this`mst, this`record, this`heapSize, this`tours, this`estimates, heap, fHeap
      ensures result == Expanded || result == Aborted(Inconsistency) ||
              result == Aborted(HeapIndexError) || result == Aborted(HeapOverflow)
      ensures var next := Status(id, SetBit(curr.bits, id, false));
              var gValue := g + dist[curr.curr][id];
              var consistent := gValue + Heuristic(dist, n, next) >= currF / n;
              (result == Aborted(Inconsistency) <==> !consistent) &&
              (result == Aborted(HeapIndexError) <==>
                 consistent && next in old(record) && gValue < old(record[next].g) && old(record[next].heapIndex) == -1) &&
              (result == Aborted(HeapOverflow) <==> consistent && next !in old(record) && old(heapSize) == MaxHeapSize - 1)
      ensures result == Aborted(Inconsistency) || result == Aborted(HeapIndexError) ==>
                record == old(record) && heapSize == old(heapSize)
      ensures var next := Status(id, SetBit(curr.bits, id, false));
              result == Aborted(HeapOverflow) ==>
                heapSize == old(heapSize) && record.Keys == old(record.Keys) + {next} &&
                record[next] == Node(g + dist[curr.curr][id], id, -1) &&
                forall s :: s in old(record) ==> record[s] == old(record[s])
      ensures result == Expanded ==>
                SearchInv() && Estimated() && old(record.Keys) <= record.Keys &&
                heapSize - old(heapSize) == |record| - |old(record)| && record[curr].g == g
      ensures result == Expanded ==> forall s :: s in old(record) ==> record[s].g <= old(record[s].g)
      ensures var next := MoveTo(curr, id);
              var gValue := g + dist[curr.curr][id];
              result == Expanded ==>
                record.Keys == old(record.Keys) + {next} && record[next].g <= gValue &&
                record.Keys - Queue().Keys == old(record.Keys - Queue().Keys) &&
                Queue() - {next} == old(Queue()) - {next} &&
                (forall s :: s in old(record) && s != next ==> record[s].g == old(record[s].g)) &&
                (next in old(record) && old(record[next].g) <= gValue ==>
                   record == old(record) && heapSize == old(heapSize) && Queue() == old(Queue())) &&
                (next in old(record) && gValue < old(record[next].g) ==>
                   record[next].g == gValue && next in Queue() && record[next].lastGoal == old(record[next].lastGoal)) &&
                (next !in old(record) ==> record[next].g == gValue && next in Queue() && record[next].lastGoal == id)
    {
      var next := Status(id, SetBit(curr.bits, id, false));
      var gValue := g + dist[curr.curr][id];
      var h := LookAhead(next);
      var nextF := gValue + h;
      if nextF < currF / n {
        return Aborted(Inconsistency);
      }
      result := Offer(curr, g, id, next, gValue, h, numRemaining);
      assert gValue == g + dist[curr.curr][id];
    }

    /**
     * get_heuristic(next) inside work's inner loop (pacman.cc:383): only the
     * memo changes, so the search's invariants and every record, key and
     * walk stay as they were.
     */
    method LookAhead(next: Status) returns (h: int)
      requires SearchInv() && Estimated() && 0 <= next.curr < n
      modifies this`mst
      ensures SearchInv() && Estimated() && h == Heuristic(dist, n, next)
      ensures record == old(record) && heapSize == old(heapSize) && Queue() == old(Queue())
    {
      h := GetHeuristic(next);
    }

    /**
     * The rest of a move that passed the consistency check: a record of
     * next no cheaper than gValue is left alone; a cheaper one that is not
     * queued is the heap-index abort, one that is queued gets the
     * decrease-key; a new state is recorded and pushed.
     */
    method Offer(curr: Status, g: int, id: int, next: Status, gValue: int, h: int, numRemaining: int)
      returns (result: Expansion)
      requires SearchInv() && Estimated() && curr in record && g == record[curr].g
      requires 0 <= curr.curr < n && 0 <= id < n && HasBit(curr.bits, id)
      requires next == Status(id, SetBit(curr.bits, id, false)) && gValue == g + dist[curr.curr][id]
      requires h == Heuristic(dist, n, next) && numRemaining == Remainder(n, origin, curr)
      modifies this`record, this`heapSize, this`tours, this`estimates, heap, fHeap
      ensures result == Expanded || result == Aborted(HeapIndexError) || result == Aborted(HeapOverflow)
      ensures result == Aborted(HeapIndexError) <==>
                next in old(record) && gValue < old(record[next].g) && old(record[next].heapIndex) == -1
      ensures result == Aborted(HeapOverflow) <==> next !in old(record) && old(heapSize) == MaxHeapSize - 1
      ensures result == Aborted(HeapIndexError) ==> record == old(record) && heapSize == old(heapSize)
      ensures result == Aborted(HeapOverflow) ==>
                record == old(record)[next := Node(gValue, id, -1)] && heapSize == old(heapSize)
      ensures result == Expanded ==>
                SearchInv() && Estimated() && old(record.Keys) <= record.Keys &&
                heapSize - old(heapSize) == |record| - |old(record)| && record[curr].g == g
      ensures result == Expanded ==> forall s :: s in old(record) ==> record[s].g <= old(record[s].g)
      ensures result == Expanded ==>
                record.Keys == old(record.Keys) + {next} && record[next].g <= gValue &&
                record.Keys - Queue().Keys == old(record.Keys - Queue().Keys) &&
                Queue() - {next} == old(Queue()) - {next} &&
                forall s :: s in old(record) && s != next ==> record[s].g == old(record[s].g)
      ensures next in old(record) && old(record[next].g) <= gValue ==>
                result == Expanded && record == old(record) && heapSize == old(heapSize) && Queue() == old(Queue())
      ensures next in old(record) && gValue < old(record[next].g) && old(record[next].heapIndex) != -1 ==>
                result == Expanded && record[next].g == gValue && record[next].lastGoal == old(record[next].lastGoal) &&
                next in old(Queue()) && Queue() == old(Queue())[next := old(Queue()[next]) - (old(record[next].g) - gValue) * n]
      ensures next !in old(record) && result == Expanded ==>
                record[next].g == gValue && record[next].lastGoal == id &&
                Queue() == old(Queue())[next := Pack(gValue + h, numRemaining - 1, n)]
    {
      ghost var Q := Queue();
      if next in record {
        var nextNode := record[next];
        if nextNode.g <= gValue {
          return Expanded;
        }
        if nextNode.heapIndex == -1 {
          return Aborted(HeapIndexError);
        }
        Improve(curr, id, next, gValue);
        UpdateElsewhere(Q, next, Queue()[next]);
      } else {
        var ok := Discover(curr, id, next, gValue, h, numRemaining);
        if !ok {
          return Aborted(HeapOverflow);
        }
        UpdateElsewhere(Q, next, Queue()[next]);
      }
      return Expanded;
    }

    /**
     * The inner loop of work over the goals id of curr: goals not in the
     * subset and useless goals are skipped, every other move is tried, and
     * the first abort ends the expansion.
     */
    method Expand(curr: Status, g: int, currF: int, numRemaining: int) returns (result: Expansion)
      requires SearchInv() && Estimated() && curr in record && g == record[curr].g && 0 <= curr.curr < n
      requires numRemaining == Remainder(n, origin, curr)
      modifies this`mst, this`record, this`heapSize, this`tours, this`estimates, heap, fHeap
      ensures result == Expanded || result == Aborted(Inconsistency) ||
              result == Aborted(HeapIndexError) || result == Aborted(HeapOverflow)
      ensures result == Expanded ==>
                SearchInv() && Estimated() && old(record.Keys) <= record.Keys &&
                heapSize - old(heapSize) == |record| - |old(record)|
      ensures result == Expanded ==> forall s :: s in old(record) ==> record[s].g <= old(record[s].g)
      ensures result == Expanded ==>
                record.Keys - Queue().Keys == old(record.Keys - Queue().Keys) &&
                forall s :: s in record && s !in old(record) ==>
                  0 <= s.curr < n && HasBit(curr.bits, s.curr) && !Useless(dist, n, curr, s.curr) && s == MoveTo(curr, s.curr)
      ensures result == Expanded ==>
                forall s :: s in old(record) && record[s].g < old(record[s].g) ==>
                  0 <= s.curr < n && HasBit(curr.bits, s.curr) && !Useless(dist, n, curr, s.curr) && s == MoveTo(curr, s.curr)
      ensures result == Expanded ==> OfferedAll(dist, n, old(record), record, curr, g)
      ensures SettledKept(old(record), old(Queue()), record)
      ensures result == Expanded ==> CheckedBelow(dist, n, curr, g, currF, n)
      ensures result.Aborted? ==> AbortedFrom(dist, n, record, heapSize, curr, g, currF, result.why)
    {
      for id := 0 to n
        invariant SearchInv() && Estimated() && curr in record && record[curr].g == g
        invariant old(record.Keys) <= record.Keys && heapSize - old(heapSize) == |record| - |old(record)|
        invariant forall s :: s in old(record) ==> record[s].g <= old(record[s].g)
        invariant record.Keys - Queue().Keys == old(record.Keys - Queue().Keys)
        invariant ExpandedBelow(dist, n, old(record), record, curr, g, id)
        invariant CheckedBelow(dist, n, curr, g, currF, id)
        invariant SettledKept(old(record), old(Queue()), record)
      {
        ghost var rec, Q := record, Queue();
        result := Visit(curr, g, currF, numRemaining, id, old(record));
        SettledKeptTrans(old(record), old(Queue()), rec, Q, record);
        if result.Aborted? {
          assert AbortsAt(dist, n, record, heapSize, curr, g, currF, id, result.why);
          return;
        }
      }
      ExpandedAll(dist, n, old(record), record, curr, g);
      result := Expanded;
    }

    /**
     * One round of the inner loop of work, for goal id: a goal not in the
     * subset or a useless one is skipped, any other move is tried, so the
     * moves up to id are recorded with the cost they were offered, and no
     * state already taken off the heap changes its g_.
     */
    method Visit(curr: Status, g: int, currF: int, numRemaining: int, id: int, ghost rec0: map<Status, Node>)
      returns (result: Expansion)
      requires SearchInv() && Estimated() && curr in record && g == record[curr].g && 0 <= curr.curr < n && 0 <= id < n
      requires numRemaining == Remainder(n, origin, curr) && ExpandedBelow(dist, n, rec0, record, curr, g, id)
      requires rec0.Keys <= record.Keys && CheckedBelow(dist, n, curr, g, currF, id)
      modifies this`mst, this`record, this`heapSize, this`tours, this`estimates, heap, fHeap
      ensures result == Expanded || result == Aborted(Inconsistency) ||
              result == Aborted(HeapIndexError) || result == Aborted(HeapOverflow)
      ensures result == Expanded ==>
                SearchInv() && Estimated() && old(record.Keys) <= record.Keys && curr in record && record[curr].g == g &&
                heapSize - old(heapSize) == |record| - |old(record)|
      ensures result == Expanded ==> forall s :: s in old(record) ==> record[s].g <= old(record[s].g)
      ensures result == Expanded ==>
                record.Keys - Queue().Keys == old(record.Keys - Queue().Keys) &&
                ExpandedBelow(dist, n, rec0, record, curr, g, id + 1)
      ensures !HasBit(curr.bits, id) || Useless(dist, n, curr, id) ==>
                result == Expanded && record == old(record) && heapSize == old(heapSize) && Queue() == old(Queue())
      ensures result == Expanded ==> CheckedBelow(dist, n, curr, g, currF, id + 1)
      ensures SettledKept(old(record), old(Queue()), record)
      ensures result.Aborted? ==>
                curr in record && record[curr].g == g && AbortsAt(dist, n, record, heapSize, curr, g, currF, id, result.why)
      ensures result == Aborted(HeapOverflow) ==> MoveTo(curr, id) !in old(record)
    {
      if !HasBit(curr.bits, id) {
        ExpandSkip(dist, n, rec0, record, curr, g, id);
        CheckStep(dist, n, curr, g, currF, id);
        return Expanded;
      }
      var useless := IsUseless(curr, id);
      if useless {
        ExpandSkip(dist, n, rec0, record, curr, g, id);
        CheckStep(dist, n, curr, g, currF, id);
        return Expanded;
      }
      ghost var rec := record;
      SetBitEffect(curr.bits, id, false, id);
      assert MoveTo(curr, id) != curr;
      ghost var Q := Queue();
      result := TryMove(curr, g, currF, numRemaining, id);
      if result.Expanded? {
        TriedStep(dist, n, rec0, rec, Q, record, Queue(), curr, g, currF, id);
      }
    }

    /**
     * The set-up of work, given the start's heuristic h: the start state is
     * recorded with g_ = 0 and heap slot 0, and it is the only queued state,
     * with key h * num_goals + (num_goals - 1).
     */
    method Begin(start: Status, h: int)
      requires MemoValid() && Shape() && 0 <= start.curr < n && |Members(start.bits)| < n
      modifies this`record, this`heapSize, this`origin, this`tours, this`estimates, heap, fHeap
      ensures SearchInv() && Settled() && origin == start && heapSize == 1
      ensures record == map[start := Node(0, -1, 0)] && heap[0] == start
      ensures Queue() == map[start := Pack(h, n - 1, n)]
      ensures tours == map[start := [start.curr]] && estimates == map[start := h]
    {
      var key := Pack(h, n - 1, n);
      record := map[start := Node(0, -1, 0)];
      heap[0] := start;
      fHeap[0] := key;
      heapSize := 1;
      origin := start;
      tours := map[start := [start.curr]];
      estimates := map[start := h];
      StartIndexed(fHeap[..], heap[..], start);
      StartReached(dist, n, start);
      StartPacked(n, start, h, key);
      assert Queue() == map[start := key];
    }

    /** num_remaining = curr_f % num_goals: the remainder a key was packed with. */
    method Remaining(key: int, ghost f: int, ghost r: int) returns (numRemaining: int)
      requires 0 <= r < n && key == Pack(f, r, n)
      ensures numRemaining == r
    {
      PackSplit(f, r, n);
      numRemaining := key % n;
    }

    /**
     * One round of work's outer loop: pop the queued state of least key; if
     * it has no goal left the search is solved with its g_, else it is
     * expanded, and an abort stops the search.
     */
    method Step() returns (step: Progress, ghost popped: Status)
      requires SearchInv() && Estimated() && Settled() && heapSize > 0
      modifies this`mst, this`record, this`heapSize, this`tours, this`estimates, heap, fHeap
      ensures popped in old(Queue()) && forall s :: s in old(Queue()) ==> old(Queue())[popped] <= old(Queue())[s]
      ensures IsEmpty(popped.bits) <==> step.Stop? && step.outcome.Solved?
      ensures step.Stop? && step.outcome.Solved? ==>
                popped in record && record[popped].heapIndex == -1 &&
                step.outcome.cost == old(record[popped].g) == record[popped].g &&
                exists t :: FullTour(n, origin, t) && TourCost(dist, n, t) == step.outcome.cost
      ensures step.Stop? ==> !step.outcome.Exhausted?
      ensures step.Stop? && !step.outcome.Solved? ==>
                AbortedFrom(dist, n, record, heapSize, popped, old(record[popped].g), old(Queue())[popped], step.outcome)
      ensures step == Continue ==>
                SearchInv() && Estimated() && Settled() && |old(record)| <= |record| &&
                heapSize - old(heapSize) == |record| - |old(record)| - 1
      ensures step == Continue ==> forall s :: s in old(record) ==> s in record && record[s].g <= old(record[s].g)
      ensures step == Continue ==>
                popped in record && popped !in Queue() && 0 <= popped.curr < n &&
                OfferedAll(dist, n, old(record), record, popped, old(record[popped].g))
      ensures SettledKept(old(record), old(Queue()), record)
      ensures step == Continue ==> record.Keys - Queue().Keys == old(record.Keys - Queue().Keys) + {popped}
    {
      ghost var rec0, Q0 := record, Queue();
      var curr, currF := PopBest();
      popped := curr;
      var currNode := record[curr];
      var numRemaining := Remaining(currF, record[curr].g + estimates[curr], Remainder(n, origin, curr));
      if IsEmpty(curr.bits) {
        EmptyIffNoMembers(curr.bits);
        WalkDone(n, origin, tours[curr], curr);
        step := Stop(Solved(currNode.g));
        return;
      }
      ghost var rec, Q := record, Queue();
      var result := Expand(curr, currNode.g, currF, numRemaining);
      if result.Aborted? {
        PoppedKept(rec0, Q0, rec, Q, record, curr);
        step := Stop(result.why);
        return;
      }
      SubsetCard(rec.Keys, record.Keys);
      PoppedRound(dist, n, rec0, Q0, rec, Q, record, Queue(), curr, currNode.g);
      step := Continue;
    }

    /**
     * The outer loop of work: pop the queued state of least key until one
     * has no goal left, whose g_ is the answer, or the open list runs empty,
     * or an abort stops the search.
     */
    method Run() returns (outcome: Outcome)
      requires SearchInv() && Estimated() && Settled() && origin in record
      modifies this`mst, this`record, this`heapSize, this`tours, this`estimates, heap, fHeap
      ensures outcome.Solved? ==> exists t :: FullTour(n, origin, t) && TourCost(dist, n, t) == outcome.cost
      ensures outcome.Solved? ==> exists s :: s in record && IsEmpty(s.bits) && record[s].g == outcome.cost
      ensures outcome.Exhausted? ==> heapSize == 0 && Queue() == map[]
      ensures Apart(dist, n) && (forall i :: i in Members(origin.bits) ==> i < n) ==> !outcome.Exhausted?
      ensures outcome.HeapOverflow? || outcome.Inconsistency? || outcome.HeapIndexError? ==>
                exists s, g, f :: AbortedFrom(dist, n, record, heapSize, s, g, f, outcome)
    {
      RecordBounded(dist, n, origin, record, tours);
      while heapSize > 0
        invariant SearchInv() && Estimated() && Settled() && origin in record && |record| <= |Universe(n)|
        decreases |Universe(n)| - |record|, heapSize
      {
        var step, popped := Step();
        if step.Stop? {
          return step.outcome;
        }
        RecordBounded(dist, n, origin, record, tours);
      }
      NothingQueued(fHeap[..], heap[..], record);
      OpenListLive(dist, n, record, Queue(), origin);
      outcome := Exhausted;
    }

    /**
     * work: set up the start state and run the search. A solution is the
     * length of a tour from the start through every goal of its subset.
     */
    method Work(start: Status) returns (outcome: Outcome)
      requires MemoValid() && Shape() && 0 <= start.curr < n && |Members(start.bits)| < n
      modifies this`mst, this`record, this`heapSize, this`origin, this`tours, this`estimates, heap, fHeap
      ensures outcome.Solved? ==> exists t :: FullTour(n, start, t) && TourCost(dist, n, t) == outcome.cost
      ensures outcome.Exhausted? ==> heapSize == 0 && Queue() == map[]
      ensures Apart(dist, n) && (forall i :: i in Members(start.bits) ==> i < n) ==> !outcome.Exhausted?
      ensures outcome.HeapOverflow? || outcome.Inconsistency? || outcome.HeapIndexError? ==>
                exists s, g, f :: AbortedFrom(dist, n, record, heapSize, s, g, f, outcome)
    {
      var h := GetHeuristic(start);
      Begin(start, h);
      StartEstimated(dist, n, start, h);
      outcome := Run();
    }
  }
}
