/**
 * The minimum-spanning-tree part of the heuristic (pacman.cc:108-162), as
 * values. get_mst lists the members of a subset (the focus), then runs
 * Prim's algorithm from the first of them: min_cost[id] is the cheapest
 * known link from the tree to focus id, each round adds the first unused
 * focus of least min_cost and relaxes the others through it, and the answer
 * is the sum of the chosen costs.
 */
module Prim {
  import opened Bitset
  import opened Grid

  /** An n by n matrix of distances below Inf: every goal reaches every other. */
  ghost predicate IsFiniteMatrix(D: seq<seq<int>>, n: int) {
    |D| == n && (forall i :: 0 <= i < n ==> |D[i]| == n) &&
    forall i, j :: 0 <= i < n && 0 <= j < n ==> 0 <= D[i][j] < Inf
  }

  /** The members of b below k, in increasing order: the focus array of get_mst. */
  function FocusBelow(b: Bits, k: int): (f: seq<int>)
    requires 0 <= k <= Capacity
    ensures forall i :: 0 <= i < |f| ==> 0 <= f[i] < k && HasBit(b, f[i])
    ensures forall i, j :: 0 <= i < j < |f| ==> f[i] < f[j]
    ensures forall x :: 0 <= x < k && HasBit(b, x) ==> x in f
    decreases k
  {
    if k == 0 then []
    else FocusBelow(b, k - 1) + (if HasBit(b, k - 1) then [k - 1] else [])
  }

  /** With no member below k the focus is empty. */
  lemma {:induction false} FocusEmpty(b: Bits, k: int)
    requires 0 <= k <= Capacity && forall x :: 0 <= x < k ==> !HasBit(b, x)
    ensures FocusBelow(b, k) == []
    decreases k
  {
    if k > 0 {
      FocusEmpty(b, k - 1);
    }
  }

  /** With at most the member id below k the focus has at most one entry. */
  lemma {:induction false} FocusSingle(b: Bits, k: int, id: int)
    requires 0 <= k <= Capacity && forall x :: 0 <= x < k && x != id ==> !HasBit(b, x)
    ensures |FocusBelow(b, k)| <= if 0 <= id < k then 1 else 0
    decreases k
  {
    if k > 0 {
      FocusSingle(b, k - 1, id);
    }
  }

  /** Every entry of F names one of the n goals. */
  predicate IsFocus(F: seq<int>, n: int) {
    forall i :: 0 <= i < |F| ==> 0 <= F[i] < n
  }

  /** The number of focus positions not in the tree yet. */
  function Unused(used: seq<bool>): (k: nat)
    ensures k <= |used|
  {
    if used == [] then 0 else Unused(used[..|used| - 1]) + (if used[|used| - 1] then 0 else 1)
  }

  /** min_cost after the initialisation loop: the distance from the first focus. */
  function InitCost(D: seq<seq<int>>, n: int, F: seq<int>): (cost: seq<int>)
    requires IsFiniteMatrix(D, n) && IsFocus(F, n) && |F| > 0
    ensures |cost| == |F| && forall id :: 0 <= id < |F| ==> cost[id] == D[F[0]][F[id]]
  {
    seq(|F|, id requires 0 <= id < |F| => D[F[0]][F[id]])
  }

  /** used after the initialisation loop: only position 0 is in the tree. */
  function InitUsed(m: nat): (used: seq<bool>)
    ensures |used| == m && forall id :: 0 <= id < m ==> used[id] == (id < 1)
  {
    seq(m, id => id < 1)
  }

  /**
   * The selection loop of one round from position id on, with the best
   * unused position so far in next and its cost in opt: a position replaces
   * the best only when it is strictly cheaper.
   */
  function PickFrom(used: seq<bool>, cost: seq<int>, id: int, next: int, opt: int): int
    requires |used| == |cost| && 0 <= id <= |used|
    decreases |used| - id
  {
    if id == |used| then next
    else if !used[id] && cost[id] < opt then PickFrom(used, cost, id + 1, id, cost[id])
    else PickFrom(used, cost, id + 1, next, opt)
  }

  /** The position a round adds: next starts at -1 and opt_cost at Inf. */
  function Pick(used: seq<bool>, cost: seq<int>): int
    requires |used| == |cost|
  {
    PickFrom(used, cost, 0, -1, Inf)
  }

  /** The relaxation loop after position next joined the tree. */
  function Relax(D: seq<seq<int>>, n: int, F: seq<int>, used: seq<bool>, cost: seq<int>, next: int)
    : (cost': seq<int>)
    requires IsFiniteMatrix(D, n) && IsFocus(F, n) && |used| == |cost| == |F| && 0 <= next < |F|
    ensures |cost'| == |F|
    ensures forall id :: 0 <= id < |F| ==>
              cost'[id] == if !used[id] && cost[id] > D[F[next]][F[id]] then D[F[next]][F[id]] else cost[id]
  {
    seq(|F|, id requires 0 <= id < |F| =>
      if !used[id] && cost[id] > D[F[next]][F[id]] then D[F[next]][F[id]] else cost[id])
  }

  /** Costs that a round can choose from: each a distance below Inf. */
  predicate FiniteCosts(cost: seq<int>) {
    forall i :: 0 <= i < |cost| ==> 0 <= cost[i] < Inf
  }

  /**
   * The sum of the costs chosen by rounds count .. |F| - 1, starting from the
   * tree `used` with link costs `cost`.
   */
  function Rounds(D: seq<seq<int>>, n: int, F: seq<int>, used: seq<bool>, cost: seq<int>, count: int): int
    requires IsFiniteMatrix(D, n) && IsFocus(F, n) && |used| == |cost| == |F|
    requires FiniteCosts(cost) && 1 <= count <= |F| && Unused(used) == |F| - count
    decreases |F| - count
  {
    if count == |F| then 0
    else
      var next := Pick(used, cost);
      RoundReady(D, n, F, used, cost, count);
      var used' := used[next := true];
      cost[next] + Rounds(D, n, F, used', Relax(D, n, F, used', cost, next), count + 1)
  }

  /** get_mst's answer for the focus F. */
  function PrimWeight(D: seq<seq<int>>, n: int, F: seq<int>): int
    requires IsFiniteMatrix(D, n) && IsFocus(F, n)
  {
    if |F| == 0 then 0
    else
      InitUnused(|F|);
      Rounds(D, n, F, InitUsed(|F|), InitCost(D, n, F), 1)
  }

  // ---------------------------------------------------------------------
  // Facts about the rounds.

  lemma {:induction false} UnusedSet(used: seq<bool>, k: int)
    requires 0 <= k < |used| && !used[k]
    ensures Unused(used[k := true]) == Unused(used) - 1
    decreases |used|
  {
    var u := used[k := true];
    if k < |used| - 1 {
      assert u[..|u| - 1] == used[..|used| - 1][k := true];
      UnusedSet(used[..|used| - 1], k);
    } else {
      assert u[..|u| - 1] == used[..|used| - 1];
    }
  }

  /** Some position is unused exactly when the count of unused positions is positive. */
  lemma {:induction false} UnusedExists(used: seq<bool>)
    ensures Unused(used) > 0 <==> exists k :: 0 <= k < |used| && !used[k]
    decreases |used|
  {
    if used != [] {
      var m := |used| - 1;
      UnusedExists(used[..m]);
      if Unused(used[..m]) > 0 {
        var k :| 0 <= k < m && !used[..m][k];
        assert !used[k];
      }
      if exists k :: 0 <= k < |used| && !used[k] {
        var k :| 0 <= k < |used| && !used[k];
        if k < m { assert !used[..m][k]; }
      }
    }
  }

  lemma {:induction false} InitUnused(m: nat)
    requires m > 0
    ensures Unused(InitUsed(m)) == m - 1
    decreases m
  {
    if m > 1 {
      InitUnused(m - 1);
      assert InitUsed(m)[..m - 1] == InitUsed(m - 1);
    } else {
      assert InitUsed(m)[..0] == [];
    }
  }

  /** The invariant of the selection loop at position id. */
  ghost predicate PickedSoFar(used: seq<bool>, cost: seq<int>, id: int, next: int, opt: int)
    requires |used| == |cost| && 0 <= id <= |used|
  {
    if next == -1 then
      opt == Inf && forall j :: 0 <= j < id && !used[j] ==> cost[j] >= Inf
    else
      0 <= next < id && !used[next] && opt == cost[next] &&
      (forall j :: 0 <= j < id && !used[j] ==> opt <= cost[j]) &&
      (forall j :: 0 <= j < next && !used[j] ==> opt < cost[j])
  }

  lemma {:induction false} PickFromLeast(used: seq<bool>, cost: seq<int>, id: int, next: int, opt: int)
    requires |used| == |cost| && 0 <= id <= |used| && PickedSoFar(used, cost, id, next, opt)
    ensures var r := PickFrom(used, cost, id, next, opt);
            (r == -1 || 0 <= r < |used|) && PickedSoFar(used, cost, |used|, r, if r == -1 then Inf else cost[r])
    decreases |used| - id
  {
    if id < |used| {
      if !used[id] && cost[id] < opt {
        PickFromLeast(used, cost, id + 1, id, cost[id]);
      } else {
        PickFromLeast(used, cost, id + 1, next, opt);
      }
    }
  }

  /**
   * The chosen position: when some unused position has a cost below Inf, the
   * round picks an unused position of least cost, the first such one.
   */
  lemma PickLeast(used: seq<bool>, cost: seq<int>)
    requires |used| == |cost| && FiniteCosts(cost) && Unused(used) > 0
    ensures var next := Pick(used, cost);
            0 <= next < |used| && !used[next] &&
            (forall j :: 0 <= j < |used| && !used[j] ==> cost[next] <= cost[j]) &&
            (forall j :: 0 <= j < next && !used[j] ==> cost[next] < cost[j])
  {
    UnusedExists(used);
    PickFromLeast(used, cost, 0, -1, Inf);
    var k :| 0 <= k < |used| && !used[k];
    assert cost[k] < Inf;
  }

  /**
   * min_cost[id] of an unused position is the least distance from a tree
   * position to it: the frontier invariant of Prim's algorithm.
   */
  ghost predicate Frontier(D: seq<seq<int>>, n: int, F: seq<int>, used: seq<bool>, cost: seq<int>)
    requires IsFiniteMatrix(D, n) && IsFocus(F, n) && |used| == |cost| == |F|
  {
    forall id :: 0 <= id < |F| && !used[id] ==>
      (forall u :: 0 <= u < |F| && used[u] ==> cost[id] <= D[F[u]][F[id]]) &&
      (exists u :: 0 <= u < |F| && used[u] && cost[id] == D[F[u]][F[id]])
  }

  /** The initialisation makes the frontier invariant hold for the tree {0}. */
  lemma FrontierInit(D: seq<seq<int>>, n: int, F: seq<int>)
    requires IsFiniteMatrix(D, n) && IsFocus(F, n) && |F| > 0
    ensures Frontier(D, n, F, InitUsed(|F|), InitCost(D, n, F))
  {
    var used, cost := InitUsed(|F|), InitCost(D, n, F);
    forall id | 0 <= id < |F| && !used[id]
      ensures exists u :: 0 <= u < |F| && used[u] && cost[id] == D[F[u]][F[id]]
    {
      assert used[0] && cost[id] == D[F[0]][F[id]];
    }
  }

  /** Adding the chosen position and relaxing through it keeps the frontier invariant. */
  lemma FrontierStep(D: seq<seq<int>>, n: int, F: seq<int>, used: seq<bool>, cost: seq<int>, next: int)
    requires IsFiniteMatrix(D, n) && IsFocus(F, n) && |used| == |cost| == |F|
    requires Frontier(D, n, F, used, cost) && 0 <= next < |F| && !used[next]
    ensures var used' := used[next := true];
            Frontier(D, n, F, used', Relax(D, n, F, used', cost, next))
  {
    var used' := used[next := true];
    var cost' := Relax(D, n, F, used', cost, next);
    forall id | 0 <= id < |F| && !used'[id]
      ensures (forall u :: 0 <= u < |F| && used'[u] ==> cost'[id] <= D[F[u]][F[id]]) &&
              (exists u :: 0 <= u < |F| && used'[u] && cost'[id] == D[F[u]][F[id]])
    {
      assert !used[id];
      var w :| 0 <= w < |F| && used[w] && cost[id] == D[F[w]][F[id]];
      if cost[id] > D[F[next]][F[id]] {
        assert used'[next] && cost'[id] == D[F[next]][F[id]];
      } else {
        assert used'[w] && cost'[id] == D[F[w]][F[id]];
      }
    }
  }

  /**
   * The cut property of each round: the chosen cost is the length of a link
   * from the tree to the chosen position, and no link from the tree to any
   * position outside it is shorter.
   */
  lemma LightestLink(D: seq<seq<int>>, n: int, F: seq<int>, used: seq<bool>, cost: seq<int>)
    requires IsFiniteMatrix(D, n) && IsFocus(F, n) && |used| == |cost| == |F|
    requires Frontier(D, n, F, used, cost) && FiniteCosts(cost) && Unused(used) > 0
    ensures var next := Pick(used, cost);
            0 <= next < |F| && !used[next] &&
            (exists u :: 0 <= u < |F| && used[u] && cost[next] == D[F[u]][F[next]]) &&
            (forall u, v :: 0 <= u < |F| && used[u] && 0 <= v < |F| && !used[v] ==> cost[next] <= D[F[u]][F[v]])
  {
    PickLeast(used, cost);
    var next := Pick(used, cost);
    forall u, v | 0 <= u < |F| && used[u] && 0 <= v < |F| && !used[v]
      ensures cost[next] <= D[F[u]][F[v]]
    {
      assert cost[next] <= cost[v] <= D[F[u]][F[v]];
    }
  }

  /** A relaxed cost is still a distance below Inf. */
  lemma RelaxFinite(D: seq<seq<int>>, n: int, F: seq<int>, used: seq<bool>, cost: seq<int>, next: int)
    requires IsFiniteMatrix(D, n) && IsFocus(F, n) && |used| == |cost| == |F| && 0 <= next < |F|
    requires FiniteCosts(cost)
    ensures FiniteCosts(Relax(D, n, F, used, cost, next))
  {
    var cost' := Relax(D, n, F, used, cost, next);
    forall i | 0 <= i < |cost'| ensures 0 <= cost'[i] < Inf {
      assert 0 <= D[F[next]][F[i]] < Inf;
    }
  }

  /**
   * What a round needs of the last: the chosen position is a real one, one
   * unused position fewer remains, and the relaxed costs stay below Inf.
   */
  lemma RoundReady(D: seq<seq<int>>, n: int, F: seq<int>, used: seq<bool>, cost: seq<int>, count: int)
    requires IsFiniteMatrix(D, n) && IsFocus(F, n) && |used| == |cost| == |F|
    requires FiniteCosts(cost) && 1 <= count < |F| && Unused(used) == |F| - count
    ensures var next := Pick(used, cost);
            0 <= next < |F| && Unused(used[next := true]) == |F| - count - 1 &&
            FiniteCosts(Relax(D, n, F, used[next := true], cost, next))
  {
    var next := Pick(used, cost);
    PickLeast(used, cost);
    UnusedSet(used, next);
    RelaxFinite(D, n, F, used[next := true], cost, next);
  }

  /** Subsets with at most one member have weight 0: no round runs. */
  lemma SmallFocus(D: seq<seq<int>>, n: int, F: seq<int>)
    requires IsFiniteMatrix(D, n) && IsFocus(F, n) && |F| <= 1
    ensures PrimWeight(D, n, F) == 0
  {
    if |F| == 1 {
      InitUnused(1);
    }
  }

  /** Each round adds a link of at least 0, so the weight is never negative. */
  lemma {:induction false} RoundsNonNegative(D: seq<seq<int>>, n: int, F: seq<int>, used: seq<bool>,
                                             cost: seq<int>, count: int)
    requires IsFiniteMatrix(D, n) && IsFocus(F, n) && |used| == |cost| == |F|
    requires FiniteCosts(cost) && 1 <= count <= |F| && Unused(used) == |F| - count
    ensures 0 <= Rounds(D, n, F, used, cost, count)
    decreases |F| - count
  {
    if count < |F| {
      var next := Pick(used, cost);
      RoundReady(D, n, F, used, cost, count);
      var used' := used[next := true];
      RoundsNonNegative(D, n, F, used', Relax(D, n, F, used', cost, next), count + 1);
    }
  }
}
