/**
 * solve_with_bfs in rabbit_leap.py: breadth-first search over a FIFO queue of
 * (configuration, path) entries, marking configurations visited when they
 * are enqueued.
 */
module Bfs {
  import opened Wrappers
  import opened Moves
  import opened Paths
  import opened Frontier
  import opened BfsInvariant

  /**
   * The inner loop of solve_with_bfs: every successor not yet visited is
   * marked visited and enqueued with its path, and the largest queue length
   * is recorded.
   */
  method EnqueueSuccessors(queue: seq<Entry>, visited: set<State>, maxQueueSize: nat,
                           path: seq<State>, succs: seq<State>)
    returns (newQueue: seq<Entry>, newVisited: set<State>, newMax: nat)
    requires |queue| <= maxQueueSize
    ensures newQueue == queue + Entries(NotYetSeen(succs, visited), path)
    ensures newVisited == visited + set s | s in succs
    ensures newMax == if |newQueue| > maxQueueSize then |newQueue| else maxQueueSize
  {
    newQueue, newVisited, newMax := queue, visited, maxQueueSize;
    for i := 0 to |succs|
      invariant newQueue + Entries(NotYetSeen(succs[i..], newVisited), path)
             == queue + Entries(NotYetSeen(succs, visited), path)
      invariant newVisited == visited + set s | s in succs[..i]
      invariant |queue| <= |newQueue|
      invariant newMax == if |newQueue| > maxQueueSize then |newQueue| else maxQueueSize
    {
      var successor := succs[i];
      EnqueueStep(succs, i, newQueue, newVisited, path);
      assert succs[..i + 1] == succs[..i] + [successor];
      SnocSet(succs[..i], succs[..i + 1], successor);
      if successor !in newVisited {
        newVisited := newVisited + {successor};
        newQueue := newQueue + [(successor, path + [successor])];
        if |newQueue| > newMax {
          newMax := |newQueue|;
        }
      }
    }
    assert succs[..|succs|] == succs;
  }

  /** One turn of the inner loop, seen on the entries still to be enqueued. */
  lemma EnqueueStep(succs: seq<State>, i: nat, pending: seq<Entry>, visited: set<State>, path: seq<State>)
    requires i < |succs|
    ensures var x := succs[i];
      (if x in visited then pending else pending + [(x, path + [x])])
        + Entries(NotYetSeen(succs[i + 1..], visited + {x}), path)
      == pending + Entries(NotYetSeen(succs[i..], visited), path)
  {
    var x := succs[i];
    assert succs[i..] == [x] + succs[i + 1..];
    NotYetSeenCons(x, succs[i + 1..], visited);
    if x in visited {
      assert visited + {x} == visited;
    } else {
      EntriesCons(x, NotYetSeen(succs[i + 1..], visited + {x}), path);
    }
  }

  lemma SnocSet(a: seq<State>, b: seq<State>, x: State)
    requires b == a + [x]
    ensures (set s | s in b) == (set s | s in a) + {x}
  {
  }

  /**
   * solve_with_bfs: returns a shortest path from start to goal, or None
   * exactly when goal cannot be reached.  nodesVisited counts the dequeued
   * configurations and maxQueueSize is the largest queue length seen.  The
   * ghost expanded is the set of configurations dequeued without being the
   * goal: each is dequeued once, all are reachable, and when the search fails
   * they are all the reachable configurations.
   */
  method SolveWithBfs(start: State, goal: State)
    returns (path: Option<seq<State>>, nodesVisited: nat, maxQueueSize: nat, ghost expanded: set<State>)
    ensures nodesVisited >= 1 && maxQueueSize >= 1
    ensures start == goal ==> path == Some([start]) && nodesVisited == 1 && maxQueueSize == 1
    ensures path.Some? ==> IsPath(Next, path.value, start, goal)
    ensures path.Some? ==> forall c :: IsPath(Next, c, start, goal) ==> |path.value| <= |c|
    ensures expanded <= ReachableSet(Next, start)
    ensures path.Some? ==> goal !in expanded && nodesVisited == |expanded| + 1
    ensures path.Some? ==> |path.value| <= nodesVisited <= |ReachableSet(Next, start)|
    ensures path.None? ==> !Reachable(Next, start, goal) && expanded == ReachableSet(Next, start)
    ensures path.None? ==> nodesVisited == |expanded| == |ReachableSet(Next, start)|
    ensures maxQueueSize <= |ReachableSet(Next, start)|
  {
    var queue: seq<Entry> := [(start, [start])];
    var visited: set<State> := {start};
    maxQueueSize := 1;
    nodesVisited := 0;
    expanded := {};
    InitialInvariant(Next, start, goal);
    NextKeepsShape();
    QueueBound(Next, start, goal, queue, visited, expanded);

    while queue != []
      invariant Invariant(Next, start, goal, queue, visited, expanded)
      invariant AllBehind(queue, expanded)
      invariant nodesVisited == |expanded|
      invariant 1 <= maxQueueSize <= |ReachableSet(Next, start)|
      invariant |queue| <= maxQueueSize
      invariant expanded == {} ==> maxQueueSize == 1
      decreases Universe(start) - visited, |queue|
    {
      nodesVisited := nodesVisited + 1;
      var current, currentPath := queue[0].0, queue[0].1;
      ghost var oldQueue, oldVisited := queue, visited;
      queue := queue[1..];

      Dequeue(Next, start, goal, oldQueue, oldVisited, expanded);
      FrontBehind(oldQueue, expanded);
      if current == goal {
        BehindLength(oldQueue[0], expanded);
        ExpandedReachable(Next, start, goal, oldQueue, oldVisited, expanded);
        return Some(currentPath), nodesVisited, maxQueueSize, expanded;
      }

      var succs := Next(current);
      queue, visited, maxQueueSize := EnqueueSuccessors(queue, visited, maxQueueSize, currentPath, succs);
      ExpandKeepsBehind(oldQueue[1..], oldQueue[0], NotYetSeen(succs, oldVisited), expanded);
      expanded := expanded + {current};
      QueueBound(Next, start, goal, queue, visited, expanded);
    }

    QueueExhausted(Next, start, goal, visited, expanded);
    return None, nodesVisited, maxQueueSize, expanded;
  }
}
