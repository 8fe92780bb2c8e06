/**
 * get_heuristic (pacman.cc:153-162): the distance from the current goal to
 * the nearest remaining goal plus the spanning-tree weight of the remaining
 * goals. As written, first_path starts at inf and is only lowered by a
 * member, so a state with no goal left gets inf + 0.
 */
module Heuristics {
  import opened Bitset
  import opened Grid
  import opened SearchState
  import opened Prim

  /** The largest value of a 32-bit int, which is also inf. */
  const IntMax: int := 0x7fffffff

  /** The value a 32-bit two's-complement addition wraps to. */
  function Wrap32(x: int): (r: int)
    ensures -IntMax - 1 <= r <= IntMax
    ensures -IntMax - 1 <= x <= IntMax ==> r == x
  {
    (x + IntMax + 1) % 0x1_0000_0000 - IntMax - 1
  }

  /** A sum just past IntMax wraps to that sum minus 2^32, which is negative. */
  lemma WrapPastMax(x: int)
    requires IntMax < x <= 2 * IntMax + 1
    ensures Wrap32(x) == x - 0x1_0000_0000 < 0
  {
    var y := x + IntMax + 1 - 0x1_0000_0000;
    assert 0 <= y < 0x1_0000_0000;
    assert x + IntMax + 1 == y + 0x1_0000_0000;
  }

  /** A state the search can meet: its goal is one of the n goals, and only goals below n are set. */
  ghost predicate IsState(n: int, s: Status) {
    0 <= s.curr < n && n <= Capacity && forall i :: i in Members(s.bits) ==> i < n
  }

  /**
   * The loop over id < k of get_heuristic: first_path, the least distance
   * from goal curr to a member of b, or Inf when b has no member below k.
   */
  function FirstPathBelow(D: seq<seq<int>>, n: int, curr: int, b: Bits, k: int): int
    requires IsFiniteMatrix(D, n) && 0 <= curr < n && 0 <= k <= n <= Capacity
    decreases k
  {
    if k == 0 then Inf
    else
      var r := FirstPathBelow(D, n, curr, b, k - 1);
      if HasBit(b, k - 1) && D[curr][k - 1] < r then D[curr][k - 1] else r
  }

  /**
   * first_path is the least distance from curr to a member below k, and it
   * is Inf exactly when there is none.
   */
  lemma {:induction false} FirstPathLeast(D: seq<seq<int>>, n: int, curr: int, b: Bits, k: int)
    requires IsFiniteMatrix(D, n) && 0 <= curr < n && 0 <= k <= n <= Capacity
    ensures var r := FirstPathBelow(D, n, curr, b, k);
            (r == Inf <==> forall id :: 0 <= id < k ==> !HasBit(b, id)) &&
            (forall id :: 0 <= id < k && HasBit(b, id) ==> r <= D[curr][id]) &&
            (r != Inf ==> exists id :: 0 <= id < k && HasBit(b, id) && r == D[curr][id])
    decreases k
  {
    if k > 0 {
      FirstPathLeast(D, n, curr, b, k - 1);
    }
  }

  /** get_mst(bits): the Prim weight of the members of bits. */
  function MstOf(D: seq<seq<int>>, n: int, b: Bits): int
    requires IsFiniteMatrix(D, n) && 0 <= n <= Capacity
  {
    PrimWeight(D, n, FocusBelow(b, n))
  }

  /** get_heuristic as written: first_path + mst, with first_path still inf for an empty subset. */
  function HeuristicAsWritten(D: seq<seq<int>>, n: int, s: Status): int
    requires IsFiniteMatrix(D, n) && 0 <= s.curr < n <= Capacity
  {
    FirstPathBelow(D, n, s.curr, s.bits, n) + MstOf(D, n, s.bits)
  }

  /**
   * The heuristic the search relies on: 0 when no goal remains, else the
   * nearest remaining goal plus the spanning-tree weight.
   */
  function Heuristic(D: seq<seq<int>>, n: int, s: Status): int
    requires IsFiniteMatrix(D, n) && 0 <= s.curr < n <= Capacity
  {
    var first := FirstPathBelow(D, n, s.curr, s.bits, n);
    if first == Inf then 0 else first + MstOf(D, n, s.bits)
  }

  // ---------------------------------------------------------------------

  /** The weight of a subset is at least 0. */
  lemma MstNonNegative(D: seq<seq<int>>, n: int, b: Bits)
    requires IsFiniteMatrix(D, n) && 0 <= n <= Capacity
    ensures MstOf(D, n, b) >= 0
  {
    var F := FocusBelow(b, n);
    if |F| > 0 {
      InitUnused(|F|);
      RoundsNonNegative(D, n, F, InitUsed(|F|), InitCost(D, n, F), 1);
    }
  }

  /**
   * The heuristic of a state is 0 exactly when no goal remains; otherwise it
   * is the distance to the nearest remaining goal plus the spanning-tree
   * weight of the remaining goals.
   */
  lemma HeuristicShape(D: seq<seq<int>>, n: int, s: Status)
    requires IsFiniteMatrix(D, n) && IsState(n, s)
    ensures Members(s.bits) == {} ==> Heuristic(D, n, s) == 0
    ensures Members(s.bits) != {} ==>
              Heuristic(D, n, s) == HeuristicAsWritten(D, n, s) &&
              (exists id :: id in Members(s.bits) && Heuristic(D, n, s) == D[s.curr][id] + MstOf(D, n, s.bits)) &&
              (forall id :: id in Members(s.bits) ==> Heuristic(D, n, s) <= D[s.curr][id] + MstOf(D, n, s.bits))
    ensures Heuristic(D, n, s) >= 0
  {
    MstNonNegative(D, n, s.bits);
    FirstPathLeast(D, n, s.curr, s.bits, n);
    forall id | 0 <= id < n && !(id in Members(s.bits)) ensures !HasBit(s.bits, id) {
    }
    if Members(s.bits) != {} {
      var x :| x in Members(s.bits);
      assert HasBit(s.bits, x) && x < n;
    }
  }

  /**
   * As written, a state with no goal left gets inf, and adding any positive
   * g_value to it overflows a 32-bit int: on a wrap-around target the sum
   * is negative.
   */
  lemma EmptyHeuristicOverflows(D: seq<seq<int>>, n: int, s: Status, gValue: int)
    requires IsFiniteMatrix(D, n) && IsState(n, s) && Members(s.bits) == {}
    requires 0 < gValue < Inf
    ensures HeuristicAsWritten(D, n, s) == Inf
    ensures gValue + HeuristicAsWritten(D, n, s) > IntMax
    ensures Wrap32(gValue + HeuristicAsWritten(D, n, s)) < 0
  {
    forall id | 0 <= id < n ensures !HasBit(s.bits, id) {
      assert id !in Members(s.bits);
    }
    FirstPathLeast(D, n, s.curr, s.bits, n);
    FocusEmpty(s.bits, n);
    SmallFocus(D, n, FocusBelow(s.bits, n));
    WrapPastMax(gValue + Inf);
  }

  /**
   * With the corrected heuristic the last move of a tour passes the
   * consistency check next_f >= curr_f / num_goals with equality: the state
   * with one goal id left has heuristic dist[curr][id], and its successor 0.
   */
  lemma LastMoveConsistent(D: seq<seq<int>>, n: int, s: Status, id: int, g: int)
    requires IsFiniteMatrix(D, n) && IsState(n, s) && Members(s.bits) == {id}
    ensures var next := Status(id, SetBit(s.bits, id, false));
            Heuristic(D, n, next) == 0 &&
            (g + D[s.curr][id]) + Heuristic(D, n, next) == g + Heuristic(D, n, s)
  {
    assert id in Members(s.bits);
    var next := Status(id, SetBit(s.bits, id, false));
    SetBitMembers(s.bits, id, false);
    assert Members(next.bits) == {};
    forall j | 0 <= j < n ensures !HasBit(next.bits, j) {
      assert j !in Members(next.bits);
    }
    var F := FocusBelow(s.bits, n);
    forall x | 0 <= x < n && x != id ensures !HasBit(s.bits, x) {
      assert x !in Members(s.bits);
    }
    FocusSingle(s.bits, n, id);
    SmallFocus(D, n, F);
    FirstPathLeast(D, n, s.curr, s.bits, n);
    FirstPathLeast(D, n, id, next.bits, n);
  }
}
