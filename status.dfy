/**
 * Search states and their node records (pacman.cc:75-95): a state pairs the
 * goal the search stands on with the subset of goals still to visit; a node
 * record holds the best cost found for a state, the goal it was created for
 * and its slot in the priority queue (-1 when it is not queued).
 */
module SearchState {
  import opened Bitset

  datatype Status = Status(curr: int, bits: Bits)

  /**
   * Node(g_, last_goal_, heap_index_). last_goal_ is written once, when the
   * record is created, with the goal the new state stands on; it is not a
   * link to the state the search came from, and a later cost decrease does
   * not touch it.
   */
  datatype Node = Node(g: int, lastGoal: int, heapIndex: int)

  /** Status::operator<: by current goal first, then by subset. */
  predicate StatusLess(a: Status, b: Status) {
    if a.curr != b.curr then a.curr < b.curr else Less(a.bits, b.bits)
  }

  lemma StatusLessIrreflexive(a: Status)
    ensures !StatusLess(a, a)
  {
    LessIrreflexive(a.bits);
  }

  lemma StatusLessTransitive(a: Status, b: Status, c: Status)
    requires StatusLess(a, b) && StatusLess(b, c)
    ensures StatusLess(a, c)
  {
    if a.curr == b.curr && b.curr == c.curr {
      LessTransitive(a.bits, b.bits, c.bits);
    }
  }

  /** For a != b exactly one of a < b and b < a holds. */
  lemma StatusLessTrichotomy(a: Status, b: Status)
    requires a != b
    ensures StatusLess(a, b) != StatusLess(b, a)
  {
    if a.curr == b.curr {
      LessTrichotomy(a.bits, b.bits);
    }
  }
}
