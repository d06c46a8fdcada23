/**
 * solve_with_dfs in rabbit_leap.py: depth-first search over a LIFO stack of
 * (configuration, path) entries, marking configurations visited when they
 * are popped.
 */
module Dfs {
  import opened Wrappers
  import opened Moves
  import opened Paths
  import opened Frontier
  import opened DfsInvariant

  /**
   * The inner loop of solve_with_dfs: the successors are walked last first,
   * every one not yet visited is pushed with its path, and the largest stack
   * length is recorded.
   */
  method PushSuccessors(stack: seq<Entry>, visited: set<State>, maxStackSize: nat,
                        path: seq<State>, succs: seq<State>)
    returns (newStack: seq<Entry>, newMax: nat)
    requires |stack| <= maxStackSize
    ensures newStack == stack + Entries(Unvisited(Reversed(succs), visited), path)
    ensures newMax == if |newStack| > maxStackSize then |newStack| else maxStackSize
  {
    var order := Reversed(succs);
    newStack, newMax := stack, maxStackSize;
    for k := 0 to |order|
      invariant newStack == stack + Entries(Unvisited(order[..k], visited), path)
      invariant newMax == if |newStack| > maxStackSize then |newStack| else maxStackSize
    {
      var successor := order[k];
      assert order[..k + 1] == order[..k] + [successor];
      UnvisitedSnoc(order[..k], successor, visited);
      if successor !in visited {
        EntriesSnoc(Unvisited(order[..k], visited), successor, path);
        newStack := newStack + [(successor, path + [successor])];
        if |newStack| > newMax {
          newMax := |newStack|;
        }
      }
    }
    assert order[..|order|] == order;
  }

  /**
   * solve_with_dfs: returns a path from start to goal that repeats no
   * configuration, or None exactly when goal cannot be reached.
   * nodesVisited counts the pops and maxStackSize is the largest stack length
   * seen.  The ghost expanded is the set of configurations marked visited: each
   * marked by a pop of its own, all reachable, and all the reachable
   * configurations when the search fails.
   */
  method SolveWithDfs(start: State, goal: State)
    returns (path: Option<seq<State>>, nodesVisited: nat, maxStackSize: nat, ghost expanded: set<State>)
    ensures nodesVisited >= 1 && maxStackSize >= 1
    ensures start == goal ==> path == Some([start]) && nodesVisited == 1 && maxStackSize == 1
    ensures path.Some? ==> IsPath(Next, path.value, start, goal)
    ensures path.Some? ==> forall i, j :: 0 <= i < j < |path.value| ==> path.value[i] != path.value[j]
    ensures expanded <= ReachableSet(Next, start)
    ensures path.Some? ==> goal !in expanded && |expanded| + 1 <= nodesVisited
    ensures path.Some? ==> |path.value| <= nodesVisited
    ensures path.None? ==> !Reachable(Next, start, goal) && expanded == ReachableSet(Next, start)
    ensures path.None? ==> |expanded| <= nodesVisited
  {
    var stack: seq<Entry> := [(start, [start])];
    var visited: set<State> := {};
    maxStackSize := 1;
    nodesVisited := 0;
    InitialInvariant(Next, start, goal);
    NextKeepsShape();

    while stack != []
      invariant Invariant(Next, start, goal, stack, visited)
      invariant AllBehind(stack, visited)
      invariant |visited| <= nodesVisited
      invariant 1 <= maxStackSize && |stack| <= maxStackSize
      invariant nodesVisited == 0 <==> visited == {}
      invariant visited == {} ==> maxStackSize == 1
      decreases Universe(start) - visited, |stack|
    {
      nodesVisited := nodesVisited + 1;
      var current, currentPath := stack[|stack| - 1].0, stack[|stack| - 1].1;
      ghost var oldStack := stack;
      stack := stack[..|stack| - 1];

      Pop(Next, start, goal, oldStack, visited);
      TopBehind(oldStack, visited);
      if current == goal {
        ChainIsSimple(currentPath);
        BehindLength(oldStack[|oldStack| - 1], visited);
        VisitedReachable(Next, start, goal, oldStack, visited);
        return Some(currentPath), nodesVisited, maxStackSize, visited;
      }

      if current in visited {
        continue;
      }
      ExpandKeepsBehind(stack, oldStack[|oldStack| - 1], Unvisited(Reversed(Next(current)), visited + {current}), visited);
      visited := visited + {current};

      var succs := Next(current);
      stack, maxStackSize := PushSuccessors(stack, visited, maxStackSize, currentPath, succs);
    }

    StackExhausted(Next, start, goal, visited);
    return None, nodesVisited, maxStackSize, visited;
  }
}
