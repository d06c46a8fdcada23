# Rabbit Leap in Dafny

A model of the search core of `rabbit_leap.py`, with proofs about it. The
program solves the Rabbit Leap puzzle. A row of stones holds east-bound
rabbits (`E`), west-bound rabbits (`W`) and one empty stone (`_`). An `E`
moves right and a `W` moves left, either by sliding onto the empty stone
next to it or by jumping over one rabbit of the other kind onto it. The
program finds a sequence of moves from a start configuration to a goal
configuration, by breadth-first or by depth-first search.

The model has four parts.

- **Moves** (`moves.dfy`) is `get_successors`: the four guarded moves, tried
  in the program's order. It is proved to produce exactly the legal moves of
  the puzzle, in that order. Each move raises a progress measure, so the
  move graph has no cycle.
- **Paths** (`paths.dfy`) holds the facts about the move graph: chains of
  moves, reachability, and the finite set of arrangements of the start's
  stones. The search proofs need only these, so they are stated for any
  successor function. `Paths.Next` is the puzzle's successor function.
- **Breadth-first search** (`frontier.dfy`, `bfs_invariant.dfy`, `bfs.dfy`)
  is `solve_with_bfs`. It is written as a method with its two loops, keeping
  the queue, the visited set and the two counters. The returned path is
  proved to be a path of minimum length. `None` is proved to mean that the
  goal is unreachable. No configuration is dequeued twice, and every
  reachable one is dequeued when the search fails. The number of dequeues
  lies between the path length and the number of reachable configurations.
  The largest queue length is at most that number.
- **Depth-first search** (`dfs_invariant.dfy`, `dfs.dfy`) is
  `solve_with_dfs`, with configurations marked visited when popped and
  successors pushed in reverse. The returned path is proved to be a path
  that repeats no configuration. `None` is proved to mean that the goal is
  unreachable. Each configuration is expanded by at most one pop, and every
  reachable one is expanded when the search fails. The number of pops is at
  least the path length.

Configurations are `seq<char>`. A queue or stack entry is a pair of a
configuration and the path that led to it, as in the program. Python's
`deque` and `list` become sequences: `popleft` drops the first element,
`pop` drops the last, and `append` adds at the end.

## Model

| member | source | states |
|---|---|---|
| Moves.Find | rabbit_leap.py:11 | `str.find`: the result is -1 exactly when the character is absent; otherwise it is the index of its first occurrence |
| Moves.Swap | rabbit_leap.py:16-17 | exchanging two cells swaps those two cells, leaves every other cell unchanged and keeps the multiset of stones |
| Moves.Apply | rabbit_leap.py:13-37 | each of the four guards keeps the stone it swaps with the empty one inside the row |
| Moves.Successors | rabbit_leap.py:3-39 | there are at most four successors, and each has the same length and the same stones as the configuration |
| Moves.StrayMoves | rabbit_leap.py:11-37 | on a string without `_`, the code as written can still produce up to two strings, which are rearrangements of the input |
| Moves.SuccessorsAsWritten | rabbit_leap.py:3-39 | `get_successors` on any string returns at most four results, and at most two when there is no `_` |
| Moves.ApplyMovesEmpty | rabbit_leap.py:13-37 | after a move, the first `_` sits where the rule sent the empty stone, so the rule can be read back from the result |
| Moves.GenerateSound | rabbit_leap.py:13-39 | every generated configuration is the result of a rule whose guard holds |
| Moves.GenerateComplete | rabbit_leap.py:13-39 | every rule whose guard holds contributes its result |
| Moves.GenerateOrdered | rabbit_leap.py:13-39 | results appear in the order of the rules that produced them |
| Moves.SuccessorsFollowRules | rabbit_leap.py:10-39 | the successors are exactly the results of the firing rules (both directions), listed as slide right, jump right, slide left, jump left |
| Moves.SuccessorRule | rabbit_leap.py:13-37 | every successor comes from a firing rule applied at the empty stone |
| Moves.SuccessorIsLegal | rabbit_leap.py:4-37 | every successor is a legal slide or jump: an E moves right or a W moves left onto the empty stone |
| Moves.LegalIsSuccessor | rabbit_leap.py:4-37 | with one empty stone, every legal slide or jump is among the successors |
| Moves.SuccessorIffLegalMove | rabbit_leap.py:4-37 | with one empty stone, a configuration is a successor if and only if it is one legal move away |
| Moves.ProgressUpdate | rabbit_leap.py:6-7 | rewriting one cell changes the progress measure by the weight difference times the position |
| Moves.SwapEmptyProgress | rabbit_leap.py:13-37 | moving a rabbit onto the empty stone changes the measure by its weight times the distance moved |
| Moves.ProgressAfterFill | rabbit_leap.py:16-17 | copying a rabbit onto the empty cell adds its weight times that position |
| Moves.ProgressAfterClear | rabbit_leap.py:16-17 | emptying the rabbit's old cell removes its weight times that position |
| Moves.RuleGain | rabbit_leap.py:13-37 | each firing rule moves an E right or a W left by one or two stones |
| Moves.MoveProgress | rabbit_leap.py:3-39 | every move raises the progress measure by one or two |
| Paths.NextIsLegal | rabbit_leap.py:3-39 | the successor function the searches use yields only legal moves, on any string |
| Paths.NextAgreesWithBlank | rabbit_leap.py:3-39 | on a configuration with an empty stone, that function is `get_successors` as written |
| Paths.NoLegalMoveWithoutBlank | rabbit_leap.py:11-37 | a string without `_` has no legal move at all, so none of the strings the code as written produces from it is one |
| Paths.AgreesFromBlankStart | rabbit_leap.py:3-39 | from a start with an empty stone, `Next` equals `get_successors` as written on every reachable configuration |
| Paths.StraySuccessorExample | rabbit_leap.py:28-31 | on `"WE"` the code as written returns `["EW"]`, which is not a legal move, while `Next` returns no move |
| Paths.NextKeepsShape | rabbit_leap.py:16-37 | successors are rearrangements of the configuration they come from |
| Paths.ChainExtend | rabbit_leap.py:58 | appending a successor to a path gives a path |
| Paths.ChainSlice | rabbit_leap.py:58 | a piece of a path is a path |
| Paths.ChainKeepsShape | rabbit_leap.py:55-59 | every configuration on a path has the stones of its first one |
| Paths.ChainProgress | rabbit_leap.py:13-37 | along a path the progress measure grows by at least one per move |
| Paths.ChainIsSimple | rabbit_leap.py:84-88 | no configuration occurs twice on any path of the puzzle |
| Paths.ClosedHoldsChainEnd | rabbit_leap.py:48-63 | a set that holds every successor of its members, and the start of a path, holds the path's end |
| Paths.WordsComplete | rabbit_leap.py:48 | every string over an alphabet is among the words of its length |
| Paths.SameShapeInUniverse | rabbit_leap.py:48 | every rearrangement of the start lies in the finite universe the searches range over |
| Paths.ReachableInSet | rabbit_leap.py:48-63 | every reachable configuration is a rearrangement of the start and lies in the reachable set |
| Frontier.ExpandKeepsBehind | rabbit_leap.py:58-59 | after an expansion, every frontier entry's path still ends at its configuration and runs through expanded configurations before that |
| Frontier.BehindLength | rabbit_leap.py:52-53 | a returned path, all of whose configurations before the last were expanded, is at most one longer than the number of expansions |
| BfsInvariant.NotYetSeenSpec | rabbit_leap.py:55-59 | the enqueued successors are the ones not yet visited, without repeats, and every successor is then visited |
| BfsInvariant.FirstExit | rabbit_leap.py:48-61 | a path that leaves the visited set has a first step from inside to outside |
| BfsInvariant.FrontierBound | rabbit_leap.py:48-61 | while the queue holds paths of length at least L, every path to an unvisited configuration is longer than L |
| BfsInvariant.InitialInvariant | rabbit_leap.py:43-46 | the initial queue `[(start, [start])]` and visited set `{start}` satisfy the loop invariant |
| BfsInvariant.ExpandKeepsBookkeeping | rabbit_leap.py:55-59 | after an expansion, visited is still the expanded configurations plus those queued, each queued once |
| BfsInvariant.ExpandKeepsShortestFirst | rabbit_leap.py:55-59 | after an expansion, every queued path is still a shortest path, and queued path lengths never decrease and differ by at most one |
| BfsInvariant.ExpandKeepsExplored | rabbit_leap.py:55-59 | after an expansion, the successors of expanded configurations are visited, and the goal is not expanded |
| BfsInvariant.ExpandShrinks | rabbit_leap.py:48-61 | each iteration shrinks the unvisited part of the universe, or keeps it and shortens the queue |
| BfsInvariant.ExpandKeepsInvariant | rabbit_leap.py:50-61 | expanding a non-goal front keeps the loop invariant and makes progress |
| BfsInvariant.GoalReached | rabbit_leap.py:52-53 | a dequeued goal comes with a shortest path from the start, and at most all reachable configurations were dequeued |
| BfsInvariant.QueueExhausted | rabbit_leap.py:48-63 | when the queue runs dry, the goal is unreachable and exactly the reachable configurations were dequeued |
| BfsInvariant.Dequeue | rabbit_leap.py:48-61 | one iteration: either the goal is returned with a shortest path, or the invariant holds again for the new queue and visited set |
| BfsInvariant.ExpandedReachable | rabbit_leap.py:48-57 | every configuration dequeued and expanded is reachable from the start |
| BfsInvariant.QueueBound | rabbit_leap.py:56-61 | the queue holds distinct reachable configurations, so its length never exceeds their number |
| Bfs.EnqueueSuccessors | rabbit_leap.py:55-61 | the inner loop appends each unvisited successor with its path, adds all successors to visited and records the largest queue length |
| Bfs.SolveWithBfs | rabbit_leap.py:41-63 | returns a shortest path, or None exactly when the goal is unreachable. The expanded configurations are distinct and reachable, and are all of the reachable ones on None. nodesVisited counts each of them once, plus the goal, and lies between the path length and the number of reachable configurations. maxQueueSize is at most that number. start == goal gives `[start]`, 1, 1 |
| DfsInvariant.Reversed | rabbit_leap.py:85 | `reversed` keeps the length |
| DfsInvariant.ReversedMembers | rabbit_leap.py:85 | reversing keeps the members |
| DfsInvariant.UnvisitedMembers | rabbit_leap.py:85-86 | the filter keeps exactly the successors outside the visited set |
| DfsInvariant.UnvisitedSnoc | rabbit_leap.py:85-88 | filtering a list extended at the end filters the new element at the end |
| DfsInvariant.UnvisitedAppend | rabbit_leap.py:85-88 | filtering distributes over concatenation |
| DfsInvariant.UnvisitedReversed | rabbit_leap.py:84-88 | filtering the reversed successors is reversing the filtered successors |
| DfsInvariant.TopIsFirstUnvisited | rabbit_leap.py:84-88 | after the push, the top of the stack is the first unvisited successor in generator order, with its path |
| DfsInvariant.InitialInvariant | rabbit_leap.py:67-70 | the initial stack `[(start, [start])]` and an empty visited set satisfy the loop invariant |
| DfsInvariant.SkipKeepsInvariant | rabbit_leap.py:80-81 | popping an already visited configuration keeps the invariant |
| DfsInvariant.Pop | rabbit_leap.py:72-90 | one iteration: a popped goal comes with a path; a visited configuration is skipped; any other is marked visited, its successors pushed, and the invariant holds again with one more visited |
| DfsInvariant.StackExhausted | rabbit_leap.py:72-92 | when the stack runs dry, the goal is unreachable and the visited configurations are exactly the reachable ones |
| DfsInvariant.VisitedReachable | rabbit_leap.py:80-82 | every configuration marked visited is reachable from the start |
| Dfs.PushSuccessors | rabbit_leap.py:85-90 | the inner loop pushes the unvisited successors in reverse order, each with its path, and records the largest stack length |
| Dfs.SolveWithDfs | rabbit_leap.py:65-92 | returns a path that repeats no configuration, or None exactly when the goal is unreachable. The configurations marked visited are reachable, and are all of the reachable ones on None. Each one takes a pop of its own, and one more pop finds the goal. nodesVisited is at least the path length. start == goal gives `[start]`, 1, 1 |

## Findings

| source | as written | input that shows it | evidently intended | confidence | as-written member | corrected member |
|---|---|---|---|---|---|---|
| rabbit_leap.py:11-37 | without `_`, `find` returns -1, the two guards that look right still test `state[0]` and `state[1]`, and the index -1 names the last cell | `get_successors("WE")` returns `["EW"]`: the first and last rabbits are swapped | a configuration without an empty stone has no successors | high for the behaviour, medium for the intent; not executed | Paths.StraySuccessorExample | Paths.NextIsLegal |

`Moves.SuccessorsAsWritten` models `get_successors` on every string, including this case (`Moves.StrayMoves`). The searches use the corrected `Paths.Next`, which gives no move without an empty stone. Moves only rearrange stones. So from a start with an empty stone, every configuration a search meets has one, and the two functions agree there (`Paths.AgreesFromBlankStart`). For such starts, the searches' results are those of the program as written.

## Left out

- `print_solution` and the `__main__` block: console output and the demonstration instance, not part of the search.
- The concrete instance `EEE_WWW` to `WWW_EEE`, including its 16-configuration solution: the model proves properties for every start and goal, not facts about one instance.
- Memory use of copying a full path into every entry: paths are sequence values, so there is no sharing or aliasing to model.
- `deque` and `list` internals: modelled as sequences with the same first-in and last-in behaviour.
- Bfs.SolveWithBfs: maxQueueSize is stated to lie between 1 and the number of reachable configurations, and to be at least every queue length the loop reaches. It is not stated to be the exact maximum over the run.
- Dfs.SolveWithDfs: maxStackSize is stated only to be at least 1 and at least every stack length the loop reaches. The stack can hold duplicates, so the reachable count does not bound it. The number of skipped pops is not stated exactly.
- Bfs.SolveWithBfs and Dfs.SolveWithDfs: the ghost out-parameter `expanded` does not exist in the program. It names the configurations the search expanded, so that the counters can be related to them.
- Bfs.SolveWithBfs and Dfs.SolveWithDfs: starts without an empty stone are searched with the corrected successor function (see Findings), not the stray moves of the code as written.
