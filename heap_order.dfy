/**
 * The indexed binary min-heap behind the search (pacman.cc:253-321), as
 * values: f is the f_heap array, h the heap array of states, size the
 * heap_size, and rec the record map whose heap_index_ fields point back into
 * the heap. Slot i has parent (i - 1) / 2.
 */
module HeapOrder {
  import opened SearchState

  function Parent(i: int): int
    requires i > 0
  {
    (i - 1) / 2
  }

  /** f_heap[(i - 1) / 2] <= f_heap[i] for every slot 0 < i < size. */
  ghost predicate Ordered(f: seq<int>, size: int)
    requires 0 <= size <= |f|
  {
    forall i :: 0 < i < size ==> f[Parent(i)] <= f[i]
  }

  /**
   * Ordered but for the link from slot k to its parent, and k's parent is no
   * larger than k's children: the state while slip_up moves slot k up.
   */
  ghost predicate OrderedUpAt(f: seq<int>, size: int, k: int)
    requires 0 <= size <= |f|
  {
    0 <= k < size &&
    (forall i :: 0 < i < size && i != k ==> f[Parent(i)] <= f[i]) &&
    (forall i :: 0 < i < size && k > 0 && Parent(i) == k ==> f[Parent(k)] <= f[i])
  }

  /**
   * Ordered but for the links from slot k to its children, and k's parent is
   * no larger than k's children: the state while slip_down moves slot k down.
   */
  ghost predicate OrderedDownAt(f: seq<int>, size: int, k: int)
    requires 0 <= size <= |f|
  {
    0 <= k < size &&
    (forall i :: 0 < i < size && Parent(i) != k ==> f[Parent(i)] <= f[i]) &&
    (forall i :: 0 < i < size && k > 0 && Parent(i) == k ==> f[Parent(k)] <= f[i])
  }

  function Swap<T>(s: seq<T>, i: int, j: int): (t: seq<T>)
    requires 0 <= i < |s| && 0 <= j < |s|
    ensures |t| == |s| && t[i] == s[j] && t[j] == s[i]
    ensures forall k :: 0 <= k < |s| && k != i && k != j ==> t[k] == s[k]
  {
    s[i := s[j]][j := s[i]]
  }

  // ---------------------------------------------------------------------
  // Heap order.

  /** One round of slip_up: swapping a slot smaller than its parent moves the gap up. */
  lemma SwapUp(f: seq<int>, size: int, k: int)
    requires 0 <= size <= |f| && OrderedUpAt(f, size, k) && k > 0 && f[Parent(k)] > f[k]
    ensures OrderedUpAt(Swap(f, Parent(k), k), size, Parent(k))
  {
    var p := Parent(k);
    var g := Swap(f, p, k);
    forall i | 0 < i < size && i != p ensures g[Parent(i)] <= g[i] {
      if i == k {
      } else if Parent(i) == p {
        assert f[p] <= f[i];
      } else if Parent(i) == k {
        assert f[Parent(k)] <= f[i];
      } else {
        assert f[Parent(i)] <= f[i];
      }
    }
    forall i | 0 < i < size && p > 0 && Parent(i) == p ensures g[Parent(p)] <= g[i] {
      assert f[Parent(p)] <= f[p];
      if i != k {
        assert f[p] <= f[i];
      }
    }
  }

  /** slip_up stops at the root or below a parent no larger than the slot: the heap is ordered. */
  lemma UpDone(f: seq<int>, size: int, k: int)
    requires 0 <= size <= |f| && OrderedUpAt(f, size, k) && (k == 0 || f[Parent(k)] <= f[k])
    ensures Ordered(f, size)
  {
  }

  /** One round of slip_down: swapping a slot with its smaller, smaller-than-it child moves the gap down. */
  lemma SwapDown(f: seq<int>, size: int, k: int, c: int)
    requires 0 <= size <= |f| && OrderedDownAt(f, size, k)
    requires c < size && (c == 2 * k + 1 || c == 2 * k + 2) && f[c] < f[k]
    requires 2 * k + 1 < size ==> f[c] <= f[2 * k + 1]
    requires 2 * k + 2 < size ==> f[c] <= f[2 * k + 2]
    ensures OrderedDownAt(Swap(f, k, c), size, c)
  {
    var g := Swap(f, k, c);
    assert Parent(c) == k;
    forall i | 0 < i < size && Parent(i) != c ensures g[Parent(i)] <= g[i] {
      if i == c {
      } else if i == k {
        assert f[Parent(k)] <= f[c];
      } else if Parent(i) == k {
        assert i == 2 * k + 1 || i == 2 * k + 2;
        assert f[c] <= f[i];
      } else {
        assert f[Parent(i)] <= f[i];
      }
    }
    forall i | 0 < i < size && Parent(i) == c ensures g[k] <= g[i] {
      assert f[Parent(i)] <= f[i];
    }
  }

  /** The child slip_down compares with: the right child when it exists and is strictly smaller, else the left. */
  function SmallerChild(f: seq<int>, size: int, k: int): (c: int)
    requires 0 <= k && 2 * k + 1 < size <= |f|
    ensures (c == 2 * k + 1 || c == 2 * k + 2) && c < size
    ensures f[c] <= f[2 * k + 1] && (2 * k + 2 < size ==> f[c] <= f[2 * k + 2])
  {
    if 2 * k + 2 < size && f[2 * k + 2] < f[2 * k + 1] then 2 * k + 2 else 2 * k + 1
  }

  /** slip_down stops when no child is smaller than the slot: the heap is ordered. */
  lemma DownDone(f: seq<int>, size: int, k: int)
    requires 0 <= size <= |f| && OrderedDownAt(f, size, k)
    requires 2 * k + 1 < size ==> f[k] <= f[2 * k + 1]
    requires 2 * k + 2 < size ==> f[k] <= f[2 * k + 2]
    ensures Ordered(f, size)
  {
    forall i | 0 < i < size && Parent(i) == k ensures f[k] <= f[i] {
      assert i == 2 * k + 1 || i == 2 * k + 2;
    }
  }

  /** Lowering the key of one slot leaves only that slot's parent link to repair. */
  lemma Decreased(f: seq<int>, size: int, k: int, v: int)
    requires 0 <= size <= |f| && Ordered(f, size) && 0 <= k < size && v <= f[k]
    ensures OrderedUpAt(f[k := v], size, k)
  {
    var g := f[k := v];
    forall i | 0 < i < size && i != k ensures g[Parent(i)] <= g[i] {
      assert f[Parent(i)] <= f[i];
    }
    forall i | 0 < i < size && k > 0 && Parent(i) == k ensures g[Parent(k)] <= g[i] {
      assert f[Parent(k)] <= f[k] <= f[i];
    }
  }

  /** A new key at slot size only needs its parent link repaired. */
  lemma Pushed(f: seq<int>, size: int, v: int)
    requires 0 <= size < |f| && Ordered(f, size)
    ensures OrderedUpAt(f[size := v], size + 1, size)
  {
    var g := f[size := v];
    forall i | 0 < i < size + 1 && i != size ensures g[Parent(i)] <= g[i] {
      assert f[Parent(i)] <= f[i];
    }
  }

  /** The last key moved to the root only needs the root's child links repaired. */
  lemma Popped(f: seq<int>, size: int)
    requires 2 <= size <= |f| && Ordered(f, size)
    ensures OrderedDownAt(f[0 := f[size - 1]], size - 1, 0)
  {
    var g := f[0 := f[size - 1]];
    forall i | 0 < i < size - 1 && Parent(i) != 0 ensures g[Parent(i)] <= g[i] {
      assert f[Parent(i)] <= f[i];
    }
  }

  /** The root of an ordered heap holds the least key. */
  lemma {:induction false} RootIsMin(f: seq<int>, size: int, i: int)
    requires 0 <= size <= |f| && Ordered(f, size) && 0 <= i < size
    ensures f[0] <= f[i]
    decreases i
  {
    if i > 0 {
      RootIsMin(f, size, Parent(i));
    }
  }

  // ---------------------------------------------------------------------
  // Back-pointers: record[heap[i]].heap_index_ == i.

  /** Record r with its heap_index_ set to k. */
  function SetIndex(rec: map<Status, Node>, s: Status, k: int): (r: map<Status, Node>)
    requires s in rec
    ensures r.Keys == rec.Keys && r[s].heapIndex == k
    ensures forall t :: t in rec ==> r[t].g == rec[t].g && r[t].lastGoal == rec[t].lastGoal
    ensures forall t :: t in rec && t != s ==> r[t] == rec[t]
  {
    rec[s := rec[s].(heapIndex := k)]
  }

  /**
   * Every slot below size is the record state whose heap_index_ names it, and
   * every record with a heap_index_ other than -1 sits in the slot it names.
   */
  ghost predicate Indexed(h: seq<Status>, size: int, rec: map<Status, Node>)
    requires 0 <= size <= |h|
  {
    (forall i :: 0 <= i < size ==> h[i] in rec && rec[h[i]].heapIndex == i) &&
    (forall s :: s in rec && rec[s].heapIndex != -1 ==>
       0 <= rec[s].heapIndex < size && h[rec[s].heapIndex] == s)
  }

  /** The records agree on everything but heap_index_. */
  ghost predicate SameCosts(a: map<Status, Node>, b: map<Status, Node>) {
    a.Keys == b.Keys && forall s :: s in a ==> a[s].g == b[s].g && a[s].lastGoal == b[s].lastGoal
  }

  /** The queued states and their keys, read through the back-pointers. */
  ghost function Queued(rec: map<Status, Node>, f: seq<int>): map<Status, int> {
    map s | s in rec && 0 <= rec[s].heapIndex < |f| :: f[rec[s].heapIndex]
  }

  /** A swap of two slots, with both back-pointers rewritten first, as slip_up and slip_down do it. */
  function SwapRecords(rec: map<Status, Node>, h: seq<Status>, i: int, j: int): map<Status, Node>
    requires 0 <= i < |h| && 0 <= j < |h| && h[i] in rec && h[j] in rec
  {
    SetIndex(SetIndex(rec, h[i], j), h[j], i)
  }

  /** The swap keeps every back-pointer right, the queued keys and the costs. */
  lemma SwapIndexed(f: seq<int>, h: seq<Status>, size: int, rec: map<Status, Node>, i: int, j: int)
    requires 0 <= size <= |h| && size <= |f| && Indexed(h, size, rec)
    requires 0 <= i < size && 0 <= j < size && i != j
    ensures Indexed(Swap(h, i, j), size, SwapRecords(rec, h, i, j))
    ensures Queued(SwapRecords(rec, h, i, j), Swap(f, i, j)) == Queued(rec, f)
    ensures SameCosts(SwapRecords(rec, h, i, j), rec)
  {
    var rec', h', f' := SwapRecords(rec, h, i, j), Swap(h, i, j), Swap(f, i, j);
    assert h[i] != h[j];
    forall s | s in rec && rec'[s].heapIndex != -1
      ensures 0 <= rec'[s].heapIndex < size && h'[rec'[s].heapIndex] == s
    {
      if s != h[i] && s != h[j] {
        assert rec'[s] == rec[s];
      }
    }
    var q, q' := Queued(rec, f), Queued(rec', f');
    forall s | s in rec ensures (s in q <==> s in q') && (s in q ==> q[s] == q'[s]) {
      if s != h[i] && s != h[j] {
        assert rec'[s] == rec[s];
        if 0 <= rec[s].heapIndex < |f| {
          assert rec[s].heapIndex != i && rec[s].heapIndex != j;
        }
      }
    }
    assert q.Keys == q'.Keys;
  }

  /** With the back-pointers right, a slot's state is queued with the slot's key. */
  lemma QueuedSlot(f: seq<int>, h: seq<Status>, size: int, rec: map<Status, Node>, i: int)
    requires 0 <= size <= |h| && size <= |f| && Indexed(h, size, rec) && 0 <= i < size
    ensures h[i] in Queued(rec, f) && Queued(rec, f)[h[i]] == f[i]
  {
  }

  /** With the back-pointers right, exactly the states in slots below size are queued. */
  lemma QueuedKeys(f: seq<int>, h: seq<Status>, size: int, rec: map<Status, Node>, s: Status)
    requires 0 <= size <= |h| && size <= |f| && Indexed(h, size, rec)
    ensures s in Queued(rec, f) <==> s in rec && rec[s].heapIndex != -1
  {
  }
  /** With no slot in use no state is queued. */
  lemma NothingQueued(f: seq<int>, h: seq<Status>, rec: map<Status, Node>)
    requires Indexed(h, 0, rec)
    ensures Queued(rec, f) == map[]
  {
    forall s | s in rec ensures rec[s].heapIndex == -1 {
    }
  }

  /** push: the new state takes slot size and points to it; every other record keeps its slot. */
  lemma PushIndexed(f: seq<int>, h: seq<Status>, size: int, rec: map<Status, Node>, s: Status, v: int)
    requires 0 <= size < |h| && size < |f| && Indexed(h, size, rec)
    requires s in rec && rec[s].heapIndex == -1
    ensures Indexed(h[size := s], size + 1, SetIndex(rec, s, size))
    ensures Queued(SetIndex(rec, s, size), f[size := v]) == Queued(rec, f)[s := v]
  {
    var rec', h', f' := SetIndex(rec, s, size), h[size := s], f[size := v];
    forall t | t in rec' && rec'[t].heapIndex != -1
      ensures 0 <= rec'[t].heapIndex < size + 1 && h'[rec'[t].heapIndex] == t
    {
      if t != s {
        assert rec'[t] == rec[t];
      }
    }
    var q, q' := Queued(rec, f), Queued(rec', f');
    forall t | t in rec ensures (t in q[s := v] <==> t in q') && (t in q' ==> q[s := v][t] == q'[t]) {
      if t != s {
        assert rec'[t] == rec[t];
      }
    }
    assert q[s := v].Keys == q'.Keys;
  }

  /** pop on a one-slot heap: the root's state leaves and the heap is empty. */
  lemma PopLast(f: seq<int>, h: seq<Status>, rec: map<Status, Node>)
    requires 1 <= |h| && 1 <= |f| && Indexed(h, 1, rec)
    ensures Indexed(h, 0, SetIndex(rec, h[0], -1))
    ensures Queued(SetIndex(rec, h[0], -1), f) == Queued(rec, f) - {h[0]}
    ensures Queued(rec, f) == map[h[0] := f[0]]
  {
    var rec' := SetIndex(rec, h[0], -1);
    forall t | t in rec' ensures rec'[t].heapIndex == -1 {
      if t != h[0] {
        assert rec'[t] == rec[t];
      }
    }
    var q, q' := Queued(rec, f), Queued(rec', f);
    assert q.Keys == {h[0]};
    assert q'.Keys == {};
  }

  /** pop: the root's state leaves and the last slot's state moves to the root. */
  lemma PopIndexed(f: seq<int>, h: seq<Status>, size: int, rec: map<Status, Node>)
    requires 2 <= size <= |h| && size <= |f| && Indexed(h, size, rec)
    ensures var rec' := SetIndex(SetIndex(rec, h[0], -1), h[size - 1], 0);
            Indexed(h[0 := h[size - 1]], size - 1, rec') &&
            Queued(rec', f[0 := f[size - 1]]) == Queued(rec, f) - {h[0]}
  {
    var top, last := h[0], h[size - 1];
    assert top != last;
    var rec' := SetIndex(SetIndex(rec, top, -1), last, 0);
    var h', f' := h[0 := last], f[0 := f[size - 1]];
    forall t | t in rec' && rec'[t].heapIndex != -1
      ensures 0 <= rec'[t].heapIndex < size - 1 && h'[rec'[t].heapIndex] == t
    {
      if t != top && t != last {
        assert rec'[t] == rec[t];
        assert rec[t].heapIndex != 0 && rec[t].heapIndex != size - 1;
      }
    }
    var q, q' := Queued(rec, f) - {top}, Queued(rec', f');
    forall t | t in rec ensures (t in q <==> t in q') && (t in q' ==> q[t] == q'[t]) {
      if t != top && t != last {
        assert rec'[t] == rec[t];
        if rec[t].heapIndex != -1 {
          assert rec[t].heapIndex != 0 && rec[t].heapIndex != size - 1;
        }
      }
    }
    assert q.Keys == q'.Keys;
  }

  /**
   * The decrease-key of work: lowering g_ of a queued state and the key in
   * its slot keeps every back-pointer and changes only that state's key.
   */
  lemma DecreaseIndexed(f: seq<int>, h: seq<Status>, size: int, rec: map<Status, Node>, s: Status, g: int, v: int)
    requires 0 <= size <= |h| && size <= |f| && Indexed(h, size, rec)
    requires s in rec && rec[s].heapIndex != -1
    ensures var rec' := rec[s := rec[s].(g := g)];
            Indexed(h, size, rec') &&
            Queued(rec', f[rec[s].heapIndex := v]) == Queued(rec, f)[s := v]
  {
    var k := rec[s].heapIndex;
    var rec', f' := rec[s := rec[s].(g := g)], f[k := v];
    forall i | 0 <= i < size ensures h[i] in rec' && rec'[h[i]].heapIndex == i {
    }
    var q, q' := Queued(rec, f)[s := v], Queued(rec', f');
    forall t | t in rec ensures (t in q <==> t in q') && (t in q' ==> q[t] == q'[t]) {
      if t != s && rec[t].heapIndex != -1 {
        assert rec[t].heapIndex != k;
      }
    }
    assert q.Keys == q'.Keys;
  }

  /** The root of an ordered heap holds the least queued key. */
  lemma RootLeast(f: seq<int>, h: seq<Status>, size: int, rec: map<Status, Node>)
    requires 0 < size <= |h| && size <= |f| && Ordered(f, size) && Indexed(h, size, rec)
    ensures h[0] in Queued(rec, f) && Queued(rec, f)[h[0]] == f[0]
    ensures forall s :: s in Queued(rec, f) ==> f[0] <= Queued(rec, f)[s]
  {
    forall s | s in Queued(rec, f) ensures f[0] <= Queued(rec, f)[s] {
      RootIsMin(f, size, rec[s].heapIndex);
    }
  }

  /** A new record with heap_index_ -1 is not queued: the back-pointers and the queue stay as they were. */
  lemma AddRecordIndexed(f: seq<int>, h: seq<Status>, size: int, rec: map<Status, Node>, s: Status, node: Node)
    requires 0 <= size <= |h| && size <= |f| && Indexed(h, size, rec) && s !in rec && node.heapIndex == -1
    ensures Indexed(h, size, rec[s := node])
    ensures Queued(rec[s := node], f) == Queued(rec, f)
  {
    var q, q' := Queued(rec, f), Queued(rec[s := node], f);
    assert q.Keys == q'.Keys;
  }
}
