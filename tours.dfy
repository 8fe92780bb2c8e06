/**
 * The walks behind the search states of pacman.cc:323-414: a state
 * (curr_, bits_) is reached from the start state by visiting, one after the
 * other, goals of the start's subset; bits_ holds the goals not visited yet
 * and curr_ the last visited, and g_ is the length of that walk in dist.
 */
module Tours {
  import opened Bitset
  import opened SearchState
  import opened Prim

  /** Every entry of t names one of the n goals. */
  predicate OnGoals(n: int, t: seq<int>) {
    forall i :: 0 <= i < |t| ==> 0 <= t[i] < n
  }

  /** The length of the walk t: the sum of dist over its consecutive goals. */
  function TourCost(D: seq<seq<int>>, n: int, t: seq<int>): (c: int)
    requires IsFiniteMatrix(D, n) && OnGoals(n, t)
    ensures c >= 0
    decreases |t|
  {
    if |t| <= 1 then 0
    else TourCost(D, n, t[..|t| - 1]) + D[t[|t| - 2]][t[|t| - 1]]
  }

  /** The goals t visits after its first. */
  ghost function Visited(t: seq<int>): set<int> {
    set i | 1 <= i < |t| :: t[i]
  }

  ghost predicate Distinct(t: seq<int>) {
    forall i, j :: 1 <= i < j < |t| ==> t[i] != t[j]
  }

  /** A full tour: from origin's goal through every goal of origin's subset, each once. */
  ghost predicate FullTour(n: int, origin: Status, t: seq<int>) {
    |t| >= 1 && t[0] == origin.curr && OnGoals(n, t) && Distinct(t) && Visited(t) == Members(origin.bits)
  }

  /** Where a walk ends: on a state, or stuck on a move the search cannot make. */
  datatype Arrival = Stuck | At(state: Status)

  /**
   * The state the search arrives at by walking t from origin: a walk starts
   * on origin's goal, and each move goes to one of the n goals still left in
   * the subset, stands on it and clears it.
   */
  ghost function Follow(n: int, origin: Status, t: seq<int>): Arrival
    decreases |t|
  {
    if |t| == 0 || n > Capacity then Stuck
    else if |t| == 1 then (if t[0] == origin.curr && 0 <= t[0] < n then At(origin) else Stuck)
    else
      match Follow(n, origin, t[..|t| - 1])
      case Stuck => Stuck
      case At(p) =>
        var id := t[|t| - 1];
        if 0 <= id < n && HasBit(p.bits, id) then At(Status(id, SetBit(p.bits, id, false))) else Stuck
  }

  /** t is a walk of the search from origin to s. */
  ghost predicate Walk(n: int, origin: Status, t: seq<int>, s: Status) {
    Follow(n, origin, t) == At(s)
  }

  /** The walk of the start state is its goal alone. */
  lemma WalkStart(n: int, origin: Status)
    requires 0 <= origin.curr < n <= Capacity
    ensures Walk(n, origin, [origin.curr], origin)
  {
  }

  /**
   * Moving from s to one of its goals id extends the walk by id and clears
   * id from the subset, at the cost of dist[s.curr][id].
   */
  lemma WalkStep(D: seq<seq<int>>, n: int, origin: Status, t: seq<int>, s: Status, id: int)
    requires IsFiniteMatrix(D, n) && Walk(n, origin, t, s) && 0 <= id < n && HasBit(s.bits, id)
    ensures Walk(n, origin, t + [id], Status(id, SetBit(s.bits, id, false)))
    ensures OnGoals(n, t + [id])
    ensures TourCost(D, n, t + [id]) == TourCost(D, n, t) + D[s.curr][id]
  {
    WalkFacts(n, origin, t, s);
    assert (t + [id])[..|t|] == t;
  }

  /**
   * What a walk is: it ends on s's goal, stays on the n goals, visits goals
   * of origin's subset each once, and s's subset is what it has not visited.
   */
  lemma {:induction false} WalkFacts(n: int, origin: Status, t: seq<int>, s: Status)
    requires Walk(n, origin, t, s)
    ensures |t| >= 1 && t[0] == origin.curr && s.curr == t[|t| - 1] && OnGoals(n, t)
    ensures Visited(t) <= Members(origin.bits) && Distinct(t)
    ensures Members(s.bits) == Members(origin.bits) - Visited(t)
    decreases |t|
  {
    if |t| == 1 {
      assert Visited(t) == {};
    } else {
      var u := t[..|t| - 1];
      var id := t[|t| - 1];
      var p := Follow(n, origin, u).state;
      WalkFacts(n, origin, u, p);
      SetBitMembers(p.bits, id, false);
      assert id in Members(p.bits);
      VisitedSnoc(t);
      SnocFacts(n, u, id);
    }
  }

  /** The goals visited by t are those of t without its last entry, and that entry. */
  lemma VisitedSnoc(t: seq<int>)
    requires |t| > 1
    ensures Visited(t) == Visited(t[..|t| - 1]) + {t[|t| - 1]}
  {
    var u := t[..|t| - 1];
    forall x ensures x in Visited(t) <==> x in Visited(u) || x == t[|t| - 1] {
      if x in Visited(u) {
        var i :| 1 <= i < |u| && u[i] == x;
        assert t[i] == x;
      }
      if x in Visited(t) && x != t[|t| - 1] {
        var i :| 1 <= i < |t| && t[i] == x;
        assert u[i] == x;
      }
    }
  }

  /** A walk without repeats on the n goals, extended by a goal on them it has not visited, is one too. */
  lemma SnocFacts(n: int, u: seq<int>, id: int)
    requires |u| >= 1 && Distinct(u) && OnGoals(n, u) && 0 <= id < n && id !in Visited(u)
    ensures Distinct(u + [id]) && OnGoals(n, u + [id])
  {
    var t := u + [id];
    forall i, j | 1 <= i < j < |t| ensures t[i] != t[j] {
      if j == |t| - 1 {
        assert u[i] in Visited(u);
      } else {
        assert u[i] == t[i] && u[j] == t[j];
      }
    }
    forall i | 0 <= i < |t| ensures 0 <= t[i] < n {
      if i < |u| {
        assert u[i] == t[i];
      }
    }
  }

  /** A walk whose state has no goal left is a full tour. */
  lemma WalkDone(n: int, origin: Status, t: seq<int>, s: Status)
    requires Walk(n, origin, t, s) && Members(s.bits) == {}
    ensures FullTour(n, origin, t)
  {
    WalkFacts(n, origin, t, s);
    forall x | x in Members(origin.bits) ensures x in Visited(t) {
      assert x !in Members(s.bits);
    }
  }

  /** A full tour visits each goal of the start's subset once: it has one entry per goal, and one more. */
  lemma FullTourLength(n: int, origin: Status, t: seq<int>)
    requires FullTour(n, origin, t)
    ensures |t| == |Members(origin.bits)| + 1
  {
    DistinctCount(t);
  }

  /** The goals after the first of a walk without repeats number one less than its entries. */
  lemma {:induction false} DistinctCount(t: seq<int>)
    requires |t| >= 1 && Distinct(t)
    ensures |Visited(t)| == |t| - 1
    decreases |t|
  {
    if |t| > 1 {
      var u := t[..|t| - 1];
      DistinctCount(u);
      VisitedSnoc(t);
      forall x | x in Visited(u) ensures x != t[|t| - 1] {
        var i :| 1 <= i < |u| && u[i] == x;
        assert t[i] == x;
      }
    } else {
      assert Visited(t) == {};
    }
  }
}
