# PacmanSearch: the "eat every dot" search, modelled in Dafny

This project models `pacman.cc`, an exact solver for the "visit every dot" problem on a grid maze.
The maze is made of rows of characters: `%` is a wall, `P` is the start and `.` is a dot.
Every `.` and `P` cell is a *goal*, and goals are numbered in row-major order.
The program first runs one breadth-first search per goal to measure the goal-to-goal distances.
It then runs an A\* search over states (current goal, goals still to visit).
That search uses four parts of the program:

- a 256-bit goal subset (`Bits`) and its lexicographic order;
- a heuristic: the distance to the nearest remaining goal plus the weight of a Prim spanning tree over the remaining goals, memoised per subset;
- an indexed binary min-heap whose slots are mirrored by back-pointers (`heap_index_`) in the node records, so that a key can be lowered in place;
- a key that packs `f * num_goals + remaining`, which breaks ties in favour of states with fewer goals left.

The modules follow the program's parts:

| module | file | what it holds |
|---|---|---|
| `Bitset` | bitset.dfy | `Bits` as four 64-bit words, `has_bit`, `set_bit`, `empty`, `operator<`, and the abstraction `Members` |
| `SearchState` | status.dfy | `Status`, `Node`, and `Status::operator<` |
| `Grid` | grid.dfy | the maze, `outside`, the four moves, paths, and the shortest-path distance `IsDistance` |
| `GridBfs` | bfs.dfy | `breadth_first_search` over a `steps` array and an array queue, proved to compute `IsDistance` |
| `Goals` | goals.dfy | the row-major goal enumeration of `init`, and `calculate_dist` |
| `Prim` | prim.dfy | `get_mst`'s Prim rounds as functions on values (the specification of the imperative `get_mst`) |
| `Heuristics` | heuristic.dfy | `get_heuristic` as written, and the corrected heuristic |
| `HeapOrder` | heap_order.dfy | heap order and back-pointer facts about `f_heap`, `heap` and `record` |
| `Tours` | tours.dfy | the walks from the start state that a search state stands for |
| `Search` | search.dfy | class `Searcher`: the globals `mst`, `record`, `heap`, `f_heap` and `heap_size` as fields, and `slip_up`, `slip_down`, `pop`, `push`, `get_mst`, `get_heuristic` and `work` as methods |
| `Pacman` | pacman.dfy | the start state of `work`, and `init` followed by `work` on an already-parsed maze |

Main results:

- `breadth_first_search` leaves in every cell its exact 4-neighbour distance from the start, or `inf`.
- So `dist` is symmetric, has a zero diagonal and obeys the triangle inequality.
- `get_mst` returns Prim's weight, both from the memo and when it computes it afresh.
- Every Prim round adds the lightest link from the tree (the cut property).
- After every heap operation the heap is ordered and every back-pointer names its slot.
- Every queued key equals `(g + h) * num_goals + remainder`. The remainder is the number of goals the state has left plus `(num_goals - 1) - |start's subset|`. That constant is 0 when the maze has one `P`, since the start's subset then holds every other goal. With several `P` cells it is the number of extra `P` goals, since none of them is in the start's subset.
- A record's `g_` never rises.
- When `work` reports a cost, that cost is the length, in `dist`, of a tour from `P` that visits every other goal exactly once.

Where the code and its documentation differ, or the code has no defined behaviour, the model takes one side in each case:

- **`get_heuristic` with no goal left.** The code returns `inf + 0`, not 0 (see Findings). The model keeps the code as written in `Heuristics.HeuristicAsWritten`, but the search uses the corrected heuristic, which is 0 there.
- **`last_goal_` is not a parent link.** The model follows the code: `last_goal_` is the goal the new state stands on. It is written once, when the record is created, and a later decrease-key does not update it.
- **Unreachable goals.** The code does not check for them, and its `inf` distances overflow in later sums. The model departs from the code here: `Pacman.Solve` reports such a maze as `Unsupported` before searching, and does not model the overflow.
- **Goal capacity.** The code declares room for 400 goals, but `Bits` holds only 256. The model departs from the code and reports a maze with more than 256 goals as `Unsupported`.

## Model

| member | source | states |
|---|---|---|
| `Bitset.SetBitEffect` | pacman.cc:54-63 | after `set_bit(index, on)`, `has_bit(index) == on`, and every other index in 0..255 keeps its bit |
| `Bitset.SetBitMembers` | pacman.cc:54-63 | `set_bit(index, true)` adds `index` to the member set and `set_bit(index, false)` removes it |
| `Bitset.EmptyIffNoMembers` | pacman.cc:49-52 | `empty()` holds exactly when no index in 0..255 is set |
| `Bitset.MembersInjective` | pacman.cc:31-47 | two subsets with the same members are the same four words, so the member set is a faithful abstraction |
| `Bitset.LessIrreflexive` | pacman.cc:65-72 | `Bits::operator<` is irreflexive |
| `Bitset.LessTransitive` | pacman.cc:65-72 | `Bits::operator<` is transitive |
| `Bitset.LessTrichotomy` | pacman.cc:65-72 | for distinct subsets exactly one of `a < b` and `b < a` holds (the first differing word decides) |
| `SearchState.StatusLessIrreflexive` | pacman.cc:79-84 | `Status::operator<` is irreflexive |
| `SearchState.StatusLessTransitive` | pacman.cc:79-84 | `Status::operator<` (by `curr_`, then by `bits_`) is transitive |
| `SearchState.StatusLessTrichotomy` | pacman.cc:79-84 | for distinct states exactly one of `a < b` and `b < a` holds |
| `Grid.DistanceToSelf` | pacman.cc:177-179 | every cell is at distance 0 from itself |
| `Grid.DistanceSymmetric` | pacman.cc:185-192 | distances between open cells are symmetric (moves are reversible) |
| `Grid.DistanceTriangle` | pacman.cc:185-192 | a detour through a third cell is never shorter |
| `Grid.WallUnreached` | pacman.cc:189-190 | a wall other than the start is at distance `inf` |
| `GridBfs.FillUnreached` | pacman.cc:171-175 | every maze cell of `steps` becomes `inf`, and nothing outside the maze changes |
| `GridBfs.BreadthFirstSearch` | pacman.cc:168-200 | afterwards every cell holds its shortest 4-neighbour path length from the start, or `inf` exactly when no path exists |
| `GridBfs.Drain` | pacman.cc:181-199 | the `head <= tail` loop keeps the queue a list of reached cells in order of distance, with no cell queued twice, and ends with the table settled |
| `GridBfs.ExpandCell` | pacman.cc:183-198 | the four-direction scan of the cell in slot `head` keeps the BFS invariant |
| `GridBfs.Discover` | pacman.cc:194-197 | a newly reached neighbour gets its dequeued cell's value plus one (`g == Put(g0, next, g0[curr] + 1)`), is appended (`qs == qs0 + [next]`, `tail == tail0 + 1`), gets `curr` as its parent, and the BFS invariant moves on to the next direction |
| `GridBfs.Place` | pacman.cc:194-197 | `steps[next] = steps[curr] + 1` and `queue[++tail] = next`: the array mirrors the table with `next` at its parent's value plus one, and the queue's contents gain `next` |
| `GridBfs.Append` | pacman.cc:195-197 | `queue[++tail] = next` extends the queue's contents by `next` |
| `GridBfs.Mark` | pacman.cc:194 | writing one cell of `steps` updates exactly that cell of the mirrored table |
| `GridBfs.SettledDistance` | pacman.cc:168-200 | a table in which the start holds 0, every reached cell is one more than an adjacent parent, and every open neighbour of a reached cell is reached at most one later, holds the true distances |
| `GridBfs.StartSearching` | pacman.cc:177-179 | the queue holding only the start, with the start at 0, meets the loop invariant |
| `GridBfs.SearchDone` | pacman.cc:182 | when `head` passes `tail` every reached cell is relaxed, so every cell holds its distance |
| `Goals.EnumerateGoals` | pacman.cc:237-246 | the goal list is exactly the maze's `.` and `P` cells, each once, in strict row-major order |
| `Goals.GoalListUnique` | pacman.cc:237-246 | that description fixes the list: two goal lists of one maze are equal |
| `Goals.CalculateDist` | pacman.cc:202-212 | `dist[i][j]` is the maze distance from goal i to goal j, or `inf` when unreachable |
| `Goals.CopyRow` | pacman.cc:208-210 | row `id` of `dist` takes the steps of every goal, and the other rows are unchanged |
| `Goals.DistDiagonal` | pacman.cc:205-211 | `dist[i][i] == 0` |
| `Goals.DistSymmetric` | pacman.cc:205-211 | `dist[i][j] == dist[j][i]` |
| `Goals.DistTriangle` | pacman.cc:205-211 | `dist[i][k] <= dist[i][j] + dist[j][k]` when the right side is finite |
| `Goals.DistApart` | pacman.cc:202-212 | two different goals are at a positive distance, since the goal list holds each cell once |
| `Goals.DistTableUnique` | pacman.cc:202-212 | the distance table of a goal list is unique |
| `Prim.FocusBelow` | pacman.cc:117-121 | the focus list is exactly the members below k, strictly increasing |
| `Prim.PickLeast` | pacman.cc:131-138 | a round picks an unused position of least `min_cost`, the first such one |
| `Prim.UnusedSet` | pacman.cc:141 | each round turns exactly one unused position into a used one |
| `Prim.FrontierInit` | pacman.cc:123-126 | after initialisation `min_cost[id]` is the least distance from a used position (only position 0) to `id` |
| `Prim.FrontierStep` | pacman.cc:141-147 | adding the chosen position and relaxing through it keeps `min_cost[id]` equal to the least distance from any used position to each unused `id` |
| `Prim.LightestLink` | pacman.cc:130-141 | the chosen cost is the length of a tree-to-outside link, and no such link is shorter (the cut property) |
| `Prim.SmallFocus` | pacman.cc:123-130 | subsets with at most one member have weight 0 |
| `Prim.RoundsNonNegative` | pacman.cc:128-148 | the sum of the chosen costs is at least 0 |
| `Heuristics.FirstPathLeast` | pacman.cc:155-160 | `first_path` is the least `dist[curr_][id]` over the members `id`, and it stays `inf` exactly when there is no member |
| `Heuristics.MstNonNegative` | pacman.cc:108-151 | `get_mst` never returns a negative weight |
| `Heuristics.HeuristicShape` | pacman.cc:153-162 | for a non-empty subset the heuristic is the minimum `dist[curr_][id]` over members plus `get_mst(bits_)`, the same value as written; for an empty subset the corrected heuristic is 0 |
| `Heuristics.EmptyHeuristicOverflows` | pacman.cc:155-161 | as written, an empty subset gets `inf`, and `g_value + inf` exceeds `INT_MAX`, wrapping to a negative value |
| `Heuristics.LastMoveConsistent` | pacman.cc:381-387 | with the corrected heuristic, the move that takes the last goal passes the consistency check with equality |
| `HeapOrder.SwapUp` | pacman.cc:254-266 | swapping a slot with a larger parent moves the only possible disorder up one level |
| `HeapOrder.UpDone` | pacman.cc:257-259 | when the parent is no larger, or the root is reached, the heap is ordered |
| `HeapOrder.SwapDown` | pacman.cc:271-286 | swapping a slot with its smaller, smaller-keyed child moves the only possible disorder down one level |
| `HeapOrder.SmallerChild` | pacman.cc:272-275 | the chosen child is a real child and no larger than its sibling |
| `HeapOrder.DownDone` | pacman.cc:277-279 | when the smaller child is no smaller, or there is no child, the heap is ordered |
| `HeapOrder.Decreased` | pacman.cc:404-406 | lowering one key leaves only that slot's link to its parent to repair |
| `HeapOrder.Pushed` | pacman.cc:315-320 | a new key in the last slot leaves only that slot's parent link to repair |
| `HeapOrder.Popped` | pacman.cc:300-304 | moving the last key to the root leaves only the root's child links to repair |
| `HeapOrder.RootIsMin` | pacman.cc:291-292 | the root of an ordered heap holds a key no larger than any slot's |
| `HeapOrder.SetIndex` | pacman.cc:261-262 | rewriting one record's `heap_index_` keeps every record's `g_` and `last_goal_` and every other record |
| `HeapOrder.SwapIndexed` | pacman.cc:261-264 | the swap with both back-pointers rewritten keeps `record[heap[i]].heap_index_ == i` and the queued keys |
| `HeapOrder.QueuedKeys` | pacman.cc:294 | with correct back-pointers, a state is queued exactly when its `heap_index_` is not -1 |
| `HeapOrder.PushIndexed` | pacman.cc:315-318 | `push` gives the new state slot `heap_size` and adds it to the queue with its key |
| `HeapOrder.PopLast` | pacman.cc:294-298 | popping the only slot empties the queue and marks the state -1 |
| `HeapOrder.PopIndexed` | pacman.cc:294-302 | `pop` removes the root's state from the queue, and the last state takes slot 0 |
| `HeapOrder.DecreaseIndexed` | pacman.cc:404-405 | lowering a queued state's `g_` and key keeps every back-pointer and changes only that state's key |
| `HeapOrder.RootLeast` | pacman.cc:291-292 | the root's state is queued with the least key |
| `HeapOrder.AddRecordIndexed` | pacman.cc:408 | a new record with `heap_index_ = -1` is not queued and disturbs no back-pointer |
| `HeapOrder.NothingQueued` | pacman.cc:338 | when `heap_size` is 0 no state is queued |
| `Search.PackSplit` | pacman.cc:348 | a key `f * num_goals + r` with `0 <= r < num_goals` gives back `f` by `/` and `r` by `%` |
| `Search.KeyOrder` | pacman.cc:335 | keys order states by `f` first and then by the remainder |
| `Search.Lowered` | pacman.cc:404 | subtracting `(g_old - g_new) * num_goals` from a key gives the key of the lower `g` with the same `h` and remainder |
| `Search.RemainingStep` | pacman.cc:409-410 | clearing a set goal lowers the remainder by one, which is why new keys use `num_remaining - 1` |
| `Search.ReachStep` | pacman.cc:376-381 | a move from a reached state to a goal `id` it holds reaches `(id, bits \ {id})` with `g + dist[curr][id]` |
| `Search.KeysLowered` | pacman.cc:404-405 | the decrease-key keeps every queued key packed as `(g + h) * num_goals + remainder` |
| `Search.KeysPushed` | pacman.cc:409-410 | pushing with `(g + h) * num_goals + (num_remaining - 1)` keeps every key packed |
| `Search.KeysPopped` | pacman.cc:346 | popping keeps every other key packed |
| `Search.QueuedKey` | pacman.cc:346-348 | a queued state is reached by a walk of length `g_`, and its key unpacks to `g_ + h` and a remainder in `0 .. num_goals - 1`: the goals it has left plus the constant `(num_goals - 1) - |start's subset|` |
| `Search.RecordBounded` | pacman.cc:338 | there are never more records than states, so the loop of `work` ends |
| `Search.NearestUseful` | pacman.cc:361-370 | when distinct goals are at positive distance, a nearest goal of the subset is never skipped as useless |
| `Search.SettlesAfterRound` | pacman.cc:345-412 | a round that pops a state and records every useful move from it keeps every state outside the queue expanded |
| `Search.ChainToQueue` | pacman.cc:338-412 | from any recorded state, moves to a nearest goal lead through expanded records to a queued one, so some record is queued |
| `Search.OpenListLive` | pacman.cc:338 | while distinct goals are apart and the start's goals are goals of the list, the open list is never empty, so `while (heap_size)` ends only by `break` or `exit` |
| `Search.Searcher.constructor` | pacman.cc:101-106 | an empty memo, no records, an empty heap of capacity `kMaxHeapSize` |
| `Search.Searcher.SwapSlots` | pacman.cc:261-264 | both back-pointers are rewritten, then the two slots of `heap` and `f_heap` are exchanged |
| `Search.Searcher.SlipUp` | pacman.cc:253-268 | restores heap order and back-pointers, and keeps the queued keys and the costs |
| `Search.Searcher.SlipDown` | pacman.cc:270-288 | restores heap order and back-pointers, and keeps the queued keys and the costs |
| `Search.Searcher.Pop` | pacman.cc:290-307 | returns a queued state of least key with that key, removes only it from the queue, and sets its `heap_index_` to -1 |
| `Search.Searcher.Push` | pacman.cc:309-321 | fails exactly when `heap_size == kMaxHeapSize - 1`, changing nothing; otherwise adds the state with its key, keeping order and back-pointers |
| `Search.Searcher.Lower` | pacman.cc:404-406 | sets `g_`, lowers the state's key by the saving times `num_goals`, then runs `slip_up` only |
| `Search.Searcher.DecreaseKey` | pacman.cc:404-406 | the same, and every queued key stays packed |
| `Search.Searcher.CollectFocus` | pacman.cc:115-121 | `focus[..num_focus]` lists the members in increasing order |
| `Search.Searcher.StartTree` | pacman.cc:123-126 | `min_cost` starts as the distances from the first focus, and only position 0 is used |
| `Search.Searcher.PickNext` | pacman.cc:131-138 | the selection loop computes the pick of `Prim.Pick`: least `min_cost` among unused positions, or -1 with `inf` |
| `Search.Searcher.RelaxCosts` | pacman.cc:143-147 | the relaxation loop computes the relaxed costs of `Prim.Relax` |
| `Search.Searcher.GrowRound` | pacman.cc:130-147 | one round adds one position and returns the cost that the rounds' sum needs |
| `Search.Searcher.GrowTree` | pacman.cc:128-148 | `answer` is the Prim weight: the sum of the `num_focus - 1` chosen costs |
| `Search.Searcher.GetMst` | pacman.cc:108-151 | returns the Prim weight of the subset; the memo gains (or keeps) exactly that entry, so a repeated query returns the cached value and leaves the memo as it was |
| `Search.Searcher.FirstPath` | pacman.cc:155-160 | the loop computes `first_path` as `Heuristics.FirstPathBelow` |
| `Search.Searcher.ComputeMst` | pacman.cc:115-148 | on a memo miss, the focus goals are collected and Prim's tree grown from the first, and the answer is the Prim weight of the subset's goals in increasing order (0 for an empty subset) |
| `Search.Searcher.GetHeuristic` | pacman.cc:153-162 | returns the corrected heuristic and memoises the subset's tree weight |
| `Search.Searcher.IsUseless` | pacman.cc:361-370 | a goal `id` is skipped exactly when some other member `other`, with `other != curr_`, satisfies `dist[curr][id] == dist[curr][other] + dist[other][id]` |
| `Search.Searcher.Improve` | pacman.cc:404-406 | a cheaper path to a queued state sets its `g_` to `g_value`, keeps its `last_goal_`, keeps it queued, and lowers its key by `(g_old - g_value) * num_goals`; every other `g_` and key stays |
| `Search.Searcher.AddRecord` | pacman.cc:408 | the new state's record is `Node(g_value, id, -1)`, and the queue is unchanged |
| `Search.Searcher.Record` | pacman.cc:408 | `record[next] = Node(g_value, id, -1)`, with `next`'s heuristic memoised, and the queue unchanged |
| `Search.Searcher.Enqueue` | pacman.cc:409-410 | `push` with the packed key keeps every search invariant, and fails only on a full heap |
| `Search.Searcher.Discover` | pacman.cc:407-411 | the new-record branch adds exactly `next`, with `g_ == g_value` and `last_goal_ == id`; on success `next` is queued with key `(g_value + h) * num_goals + (num_remaining - 1)` and nothing else changes in the queue; on a full heap the queue is unchanged and `next` has `heap_index_ == -1` |
| `Search.Searcher.PopBest` | pacman.cc:345-348 | the popped state has the least key, is reached by a walk of length `g_`, and its key unpacks to `g_ + h` and its remaining-goal count |
| `Search.Searcher.Offer` | pacman.cc:389-411 | a record no cheaper than `g_value` leaves records, heap and queue unchanged; a heap-index abort happens exactly when a cheaper state is no longer queued, and changes no record; an overflow abort happens exactly when a new state meets a full heap, and leaves its record `Node(g_value, id, -1)`; otherwise decrease-key (new `g_`, same `last_goal_`, the lowered key) or record-and-push (`g_value`, `id`, the packed key); the queue changes only at `next`, and no `g_` rises |
| `Search.Searcher.LookAhead` | pacman.cc:383 | `get_heuristic(next)` in the goal loop returns `h` of `next`; only the memo changes, so the search invariants, the records, `heap_size` and the queue stay as they were |
| `Search.Searcher.TryMove` | pacman.cc:372-411 | for `next = (id, bits \ {id})` and `g_value = g + dist[curr][id]`: the inconsistency abort happens exactly when `next_f < curr_f / num_goals`, and it and the heap-index abort leave records and `heap_size` unchanged; the overflow abort leaves exactly one new record, `Node(g_value, id, -1)` at `next`; otherwise as `Offer`, so `next` ends recorded with exactly the lesser of its old `g_` and `g_value`, a lowered record only when it was queued, and no other `g_` changes |
| `Search.Searcher.Expand` | pacman.cc:356-412 | ends with the first abort, whose cause is a goal the loop tried: its move failed the consistency check, or found a cheaper state no longer queued, or found the heap full (`AbortedFrom`). Without an abort, every tried move passed the check, so a move that fails it forces an abort. Every goal `id` of the subset whose move is not useless then has its state `(id, bits \ {id})` recorded with exactly the cost it was offered (`OfferedAll`): its old `g_` if that was no more than `g + dist[curr][id]`, else that sum. Every new record, and every record whose `g_` fell, is the state of such a move, and the states outside the queue are unchanged. Whatever the outcome, a state that was off the heap keeps its `g_` (`SettledKept`), so improving one always ends in the heap-index abort |
| `Search.Searcher.Visit` | pacman.cc:357-411 | one round of the goal loop: a goal not in the subset or a useless one is skipped, leaving records, heap and queue unchanged; any other is tried. An abort names its cause for that goal: the failed check, the cheaper state no longer queued, or the new record `Node(g + dist[curr][id], id, -1)` meeting a full heap. Without an abort the move passed the check, and the useful moves up to `id` are recorded with exactly the cost they were offered (`ExpandedBelow`). Whatever the outcome, a state that was off the heap keeps its `g_` |
| `Search.Offered` | pacman.cc:395-410 | the cost a move leaves in the record of `next`: never more than the offered cost or the old `g_`, and equal to one of them |
| `Search.OfferKept` | pacman.cc:395-410 | a move that keeps a record no dearer, lowers only a queued record, and records a new state at its cost leaves `next` at its offered cost, and no state off the heap changes its `g_` |
| `Search.PoppedRound` | pacman.cc:345-412 | a round that pops a state and expands it without an abort adds that state to those off the heap, keeps their `g_`, and leaves each move from it at the cost offered against the records before the pop |
| `Search.InconsistentIff` | pacman.cc:383-384 | with the key a state is popped with, `next_f < curr_f / num_goals` holds exactly when `dist[curr][id] + h(next) < h(curr)`: the check fails exactly where the heuristic is not consistent on the move |
| `Search.Searcher.Begin` | pacman.cc:333-336 | the start gets `Node(0, -1, 0)` in slot 0 with key `h * num_goals + (num_goals - 1)` |
| `Search.Searcher.Remaining` | pacman.cc:348 | `curr_f % num_goals` is the remainder the key was packed with |
| `Search.Searcher.Step` | pacman.cc:338-412 | pops a state of least key; the search stops with `Solved` exactly when that state's subset is empty, and its cost is that state's `g_`, the length of a full tour; an abort is caused by a move from that state, checked against its popped key (`AbortedFrom`); otherwise the state leaves the queue, every useful move from it holds exactly the cost it was offered, measured against the records before the pop, and every state outside the queue stays expanded. Whatever the outcome, a state that was off the heap before the round keeps its `g_` |
| `Search.Searcher.Run` | pacman.cc:338-413 | the loop ends; a reported cost is the `g_` of a recorded state with an empty subset and the length of a tour from the start through every goal of its subset; `Exhausted` only with an empty heap, and never when distinct goals are at positive distance; an abort is caused by a move from a recorded state, read in the final records (`AbortedFrom`) |
| `Search.Searcher.Work` | pacman.cc:323-414 | the same from the start state: a cost is a full tour's length, the open list never runs empty while distinct goals are apart, and an abort has its cause in the final records |
| `Tours.TourCost` | pacman.cc:381 | a walk's length is a sum of `dist` entries and is never negative |
| `Tours.WalkStep` | pacman.cc:376-381 | a move extends the walk by `id`, clears `id`, and adds `dist[curr][id]` to the cost |
| `Tours.WalkFacts` | pacman.cc:376-381 | a walk visits goals of the start's subset at most once each, and a state's subset is what its walk has not visited |
| `Tours.WalkDone` | pacman.cc:350-353 | a reached state with an empty subset ends a full tour |
| `Tours.FullTourLength` | pacman.cc:350-353 | a full tour has exactly one entry per goal of the start's subset, plus the start |
| `Pacman.StartState` | pacman.cc:324-331 | `curr_` is the (last) `P` goal, and `bits_` holds exactly the goals that are not `P` cells |
| `Pacman.OthersFewer` | pacman.cc:324-331 | the start's subset has fewer members than there are goals, so the first remainder `num_goals - 1` fits |
| `Pacman.HasStart` | pacman.cc:326 | reports whether some goal is the `P` cell |
| `Pacman.Rows` | pacman.cc:99 | `dist` read row by row |
| `Pacman.Distances` | pacman.cc:202-212 | `dist` as rows, and whether no entry is `inf` |
| `Pacman.AllFinite` | pacman.cc:202-212 | the model's own guard, not a test in the code: reports whether no entry of the `dist` table that `calculate_dist` fills is `inf` (see the overflow line under Left out) |
| `Pacman.SearchGoals` | pacman.cc:323-414 | a reported cost is the length of a tour that starts on `P` and visits every other goal once, and the search never ends with an empty open list, since distinct goals are distinct cells |
| `Pacman.Solve` | pacman.cc:416-421 | `init` then `work`: the search runs exactly when the maze has 1 to 256 goals, one of them `P`, no goal out of reach of another, and a cell count below `inf`, and it never ends `Exhausted`; the goal list is the maze's, and a reported cost is the length of a tour in the maze's distance table |

## Left out

- File reading in `init` (pacman.cc:214-230): the maze arrives already parsed, as rows of equal length.
- Every `printf` (pacman.cc:232-235, 248, 339-343, 351, 385, 398-400): the reports are output only. `work`'s outcome is a value of `Search.Outcome` instead.
- `exit(0)` (pacman.cc:312, 386, 401): each abort is an `Outcome` (`HeapOverflow`, `Inconsistency`, `HeapIndexError`). `main` is `Pacman.Solve`.
- Signed 32-bit overflow of `inf` sums (pacman.cc:144, 365-366, 383, 409): the search runs only on distance tables without `inf`. `Pacman.Solve` reports mazes with an unreachable goal as `Unsupported` instead of searching. The overflow of the empty-subset heuristic is exhibited under Findings.
- `kMaxRow`, `kMaxCol`, `kMaxGoal` as array sizes: the maze and the goal list are sequences, and the model requires at most 256 goals, the capacity of `Bits`. Only the heap capacity check (pacman.cc:310) is kept.
- A maze without `P` leaves `start.curr_` uninitialised in the source (pacman.cc:324-331). `Pacman.Solve` reports it as `Unsupported`.
- Bitset.SetBit: `set_bit` updates the words of a `Bits` in place. `Bits` is a value type passed by copy, so the model gives the new value instead.
- The words of `Bits` are integers in 0..2^64-1 rather than bit-vectors. A bit is read by halving, `|=` is an addition when the bit is off, and `-=` is as written.
- Search.Searcher.Run: the model does not prove that a reported cost is optimal. That would need the heuristic to be admissible, and the weight of a Prim tree is not proved to be the minimum spanning weight. The model proves that the cost is the length of a full tour.
- Search.Searcher.Step: the model does not prove that successive pops have non-decreasing `f` (heuristic consistency, which rests on the same missing tree-minimality fact). The search checks that condition itself, as the `Inconsistency` outcome.
- Search.Searcher.Run: the three aborts (`Inconsistency`, `HeapIndexError`, `HeapOverflow`) are tied to their cause, a move from a recorded state, but the model does not prove that a whole search never reaches them. `HeapIndexError` and `Inconsistency` would need the heuristic's consistency, and `HeapOverflow` depends on the number of states.
- SearchGoals: inherits that gap from `Run`; a solved search's cost is proved to be a tour length, not the least one.
- Search.Searcher.Run: the rule that a state taken off the heap keeps its `g_`, whose breach is the `HeapIndexError` abort, is stated per round by `Search.Searcher.Step`, not across the loop. When `work` calls it, `Run` starts with only the start state, and that state is queued, so a statement about the states off the heap at entry would be empty. Carrying the rule across the whole search would need a record of each state's `g_` at the time it was popped.
- Search.Searcher.Work: it carries `Search.Searcher.Run`'s contract from the start state, with the same gaps. A reported cost is a tour length that is not proved least. The aborts are not proved unreachable. An abort's key `f` is existential. The rule that a state off the heap keeps its `g_` is stated per round, by `Search.Searcher.Step`.
- Search.Searcher.Run: the cause of an abort is read in the final records with some key `f`. Only `Search.Searcher.Step` states that `f` is the key the state was popped with, which `Search.QueuedKey` unpacks and `Search.InconsistentIff` reads as a failure of consistency.
- SearchGoals and Pacman.Solve: they return only the outcome, not the searcher's records, so the cause of an abort is stated one level down, by `Search.Searcher.Work`.
- The `record.size()` bookkeeping serves only the diagnostics of pacman.cc:339, so it is not modelled.

## Findings

| source | as written | input that shows it | evidently intended | confidence | as-written member | corrected member |
|---|---|---|---|---|---|---|
| pacman.cc:153-162 | `first_path` starts at `inf` and is lowered only by a member, so a state with no goal left gets `inf + get_mst(empty) = inf`. The caller then adds `g_value` to it (pacman.cc:383, 409), which overflows a 32-bit `int` | the maze `P.`: the move to the only dot gives `next` an empty subset and `g_value = 1`, so `next_f = 1 + inf` wraps to a negative value and the consistency check reports an inconsistency instead of a solution | the heuristic of a state with no goal left is 0, so the last move passes the check with equality | not executed; assumes two's-complement wrap-around of the undefined signed overflow | `Heuristics.EmptyHeuristicOverflows` | `Heuristics.HeuristicShape` |
