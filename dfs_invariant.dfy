/**
 * The loop invariant of solve_with_dfs and the lemmas that carry it from one
 * iteration to the next, stated for any successor function.
 */
module DfsInvariant {
  import opened Moves
  import opened Paths
  import opened Frontier

  /** Python's reversed(): the same configurations, last first. */
  function Reversed(s: seq<State>): (r: seq<State>)
    ensures |r| == |s|
  {
    seq(|s|, k requires 0 <= k < |s| => s[|s| - 1 - k])
  }

  lemma ReversedMembers(s: seq<State>)
    ensures forall x :: x in Reversed(s) <==> x in s
  {
    forall x | x in s ensures x in Reversed(s) {
      var k :| 0 <= k < |s| && s[k] == x;
      assert Reversed(s)[|s| - 1 - k] == x;
    }
  }

  /** The configurations of s that are not in visited, in order. */
  function Unvisited(s: seq<State>, visited: set<State>): seq<State>
  {
    if s == [] then []
    else (if s[0] in visited then [] else [s[0]]) + Unvisited(s[1..], visited)
  }

  /** Filtering keeps exactly the configurations of s outside visited. */
  lemma {:induction false} UnvisitedMembers(s: seq<State>, visited: set<State>)
    ensures forall x :: x in Unvisited(s, visited) <==> x in s && x !in visited
  {
    if s != [] {
      UnvisitedMembers(s[1..], visited);
      forall x | x in s ensures x == s[0] || x in s[1..] {
      }
    }
  }

  /** Filtering a list extended at the end filters the last configuration at the end. */
  lemma {:induction false} UnvisitedSnoc(s: seq<State>, x: State, visited: set<State>)
    ensures Unvisited(s + [x], visited) == Unvisited(s, visited) + (if x in visited then [] else [x])
  {
    if s == [] {
      assert s + [x] == [x] && [x][1..] == [];
    } else {
      assert (s + [x])[1..] == s[1..] + [x];
      UnvisitedSnoc(s[1..], x, visited);
    }
  }

  lemma {:induction false} UnvisitedAppend(a: seq<State>, b: seq<State>, visited: set<State>)
    ensures Unvisited(a + b, visited) == Unvisited(a, visited) + Unvisited(b, visited)
  {
    if a == [] {
      assert a + b == b;
    } else {
      assert (a + b)[1..] == a[1..] + b;
      UnvisitedAppend(a[1..], b, visited);
    }
  }

  lemma ReversedCons(x: State, s: seq<State>)
    ensures Reversed([x] + s) == Reversed(s) + [x]
  {
  }

  /**
   * Pushing the successors in reverse puts the unvisited ones on the stack in
   * reverse generator order, so they are popped in generator order.
   */
  lemma {:induction false} UnvisitedReversed(s: seq<State>, visited: set<State>)
    ensures Unvisited(Reversed(s), visited) == Reversed(Unvisited(s, visited))
  {
    if s != [] {
      var x, rest := s[0], s[1..];
      assert s == [x] + rest;
      ReversedCons(x, rest);
      UnvisitedAppend(Reversed(rest), [x], visited);
      UnvisitedReversed(rest, visited);
      assert Unvisited([x], visited) == if x in visited then [] else [x] by {
        assert [x][1..] == [];
      }
      if x in visited {
        assert Unvisited(s, visited) == Unvisited(rest, visited);
      } else {
        assert Unvisited(s, visited) == [x] + Unvisited(rest, visited);
        ReversedCons(x, Unvisited(rest, visited));
      }
    }
  }

  /**
   * After the push, the top of the stack is the first unvisited successor in
   * generator order, with its path: the next configuration the search pops.
   */
  lemma TopIsFirstUnvisited(stack: seq<Entry>, succs: seq<State>, visited: set<State>, path: seq<State>)
    requires Unvisited(succs, visited) != []
    ensures var pushed := stack + Entries(Unvisited(Reversed(succs), visited), path);
      pushed != [] && pushed[|pushed| - 1] == (Unvisited(succs, visited)[0], path + [Unvisited(succs, visited)[0]])
  {
    UnvisitedReversed(succs, visited);
    var u := Unvisited(succs, visited);
    var pushed := stack + Entries(Unvisited(Reversed(succs), visited), path);
    assert Reversed(u)[|u| - 1] == u[0];
    assert pushed[|pushed| - 1] == Entries(Reversed(u), path)[|u| - 1];
  }

  /**
   * The loop invariant of solve_with_dfs.  Every stack entry holds a path to
   * its configuration; every visited configuration is reachable; every
   * successor of a visited configuration is visited or still on the stack;
   * start is on the stack until it is visited; the goal has not been popped.
   */
  ghost predicate Invariant(next: Graph, start: State, goal: State, stack: seq<Entry>, visited: set<State>)
  {
    (forall i :: 0 <= i < |stack| ==> IsPath(next, stack[i].1, start, stack[i].0)) &&
    (forall i :: 0 <= i < |stack| ==> SameShape(start, stack[i].0)) &&
    (forall x :: x in visited ==> Reachable(next, start, x) && SameShape(start, x)) &&
    (forall x, y :: x in visited && y in next(x) ==> y in visited || y in StatesOf(stack)) &&
    goal !in visited &&
    (visited == {} ==> stack == [(start, [start])]) &&
    (visited != {} ==> start in visited)
  }

  lemma InitialInvariant(next: Graph, start: State, goal: State)
    ensures Invariant(next, start, goal, [(start, [start])], {})
  {
    var q: seq<Entry> := [(start, [start])];
    assert IsPath(next, q[0].1, start, q[0].0);
  }

  /** Popping a configuration that is already visited keeps the invariant. */
  lemma SkipKeepsInvariant(next: Graph, start: State, goal: State, stack: seq<Entry>, visited: set<State>)
    requires Invariant(next, start, goal, stack, visited) && stack != []
    requires stack[|stack| - 1].0 in visited
    ensures Invariant(next, start, goal, stack[..|stack| - 1], visited)
  {
    var n := |stack| - 1;
    StatesOfLast(stack);
    forall i | 0 <= i < n ensures IsPath(next, stack[..n][i].1, start, stack[..n][i].0) && SameShape(start, stack[..n][i].0) {
      assert stack[..n][i] == stack[i];
    }
  }

  /** The new entries hold paths that extend the path to the popped configuration. */
  lemma PushedPaths(next: Graph, start: State, top: Entry, added: seq<State>)
    requires KeepsShape(next) && IsPath(next, top.1, start, top.0) && SameShape(start, top.0)
    requires forall x :: x in added ==> x in next(top.0)
    ensures forall k :: 0 <= k < |added| ==>
      IsPath(next, Entries(added, top.1)[k].1, start, Entries(added, top.1)[k].0) &&
      SameShape(start, Entries(added, top.1)[k].0)
  {
    forall k | 0 <= k < |added|
      ensures IsPath(next, Entries(added, top.1)[k].1, start, Entries(added, top.1)[k].0)
      ensures SameShape(start, Entries(added, top.1)[k].0)
    {
      var x := added[k];
      assert Entries(added, top.1)[k] == (x, top.1 + [x]);
      ChainExtend(next, top.1, x);
      assert SameShape(top.0, x);
    }
  }

  /** After an expansion every stack entry still holds a path, from a configuration of start's shape. */
  lemma ExpandKeepsStackPaths(next: Graph, start: State, goal: State, stack: seq<Entry>, visited: set<State>,
                              newStack: seq<Entry>)
    requires KeepsShape(next) && Invariant(next, start, goal, stack, visited) && stack != []
    requires newStack == stack[..|stack| - 1] +
      Entries(Unvisited(Reversed(next(stack[|stack| - 1].0)), visited + {stack[|stack| - 1].0}), stack[|stack| - 1].1)
    ensures forall i :: 0 <= i < |newStack| ==>
      IsPath(next, newStack[i].1, start, newStack[i].0) && SameShape(start, newStack[i].0)
  {
    var n := |stack| - 1;
    var top := stack[n];
    var added := Unvisited(Reversed(next(top.0)), visited + {top.0});
    UnvisitedMembers(Reversed(next(top.0)), visited + {top.0});
    ReversedMembers(next(top.0));
    PushedPaths(next, start, top, added);
    var entries := Entries(added, top.1);
    forall i | 0 <= i < |newStack|
      ensures IsPath(next, newStack[i].1, start, newStack[i].0) && SameShape(start, newStack[i].0)
    {
      if i < n {
        assert newStack[i] == stack[i];
      } else {
        assert newStack[i] == entries[i - n];
      }
    }
  }

  /** The configurations pushed are the successors outside visited. */
  lemma PushedMembers(succs: seq<State>, visited: set<State>, path: seq<State>)
    ensures StatesOf(Entries(Unvisited(Reversed(succs), visited), path)) == set x | x in succs && x !in visited
  {
    ReversedMembers(succs);
    UnvisitedMembers(Reversed(succs), visited);
    StatesOfEntries(Unvisited(Reversed(succs), visited), path);
  }

  /** After an expansion every successor of a visited configuration is visited or on the stack. */
  lemma ExpandKeepsCovered(next: Graph, start: State, goal: State, stack: seq<Entry>, visited: set<State>,
                           newStack: seq<Entry>)
    requires Invariant(next, start, goal, stack, visited) && stack != []
    requires newStack == stack[..|stack| - 1] +
      Entries(Unvisited(Reversed(next(stack[|stack| - 1].0)), visited + {stack[|stack| - 1].0}), stack[|stack| - 1].1)
    ensures forall x, y :: x in visited + {stack[|stack| - 1].0} && y in next(x) ==>
      y in visited + {stack[|stack| - 1].0} || y in StatesOf(newStack)
  {
    var n := |stack| - 1;
    var top := stack[n];
    var added := Unvisited(Reversed(next(top.0)), visited + {top.0});
    StatesOfLast(stack);
    StatesOfAppend(stack[..n], Entries(added, top.1));
    PushedMembers(next(top.0), visited + {top.0}, top.1);
  }

  /** Popping an unvisited configuration other than the goal, visiting it and pushing its unvisited successors keeps the invariant. */
  lemma ExpandKeepsInvariant(next: Graph, start: State, goal: State, stack: seq<Entry>, visited: set<State>,
                             newStack: seq<Entry>)
    requires KeepsShape(next) && Invariant(next, start, goal, stack, visited) && stack != []
    requires stack[|stack| - 1].0 !in visited && stack[|stack| - 1].0 != goal
    requires newStack == stack[..|stack| - 1] +
      Entries(Unvisited(Reversed(next(stack[|stack| - 1].0)), visited + {stack[|stack| - 1].0}), stack[|stack| - 1].1)
    ensures Invariant(next, start, goal, newStack, visited + {stack[|stack| - 1].0})
    ensures Universe(start) - (visited + {stack[|stack| - 1].0}) < Universe(start) - visited
  {
    var top := stack[|stack| - 1];
    assert IsPath(next, top.1, start, top.0) && SameShape(start, top.0);
    ExpandKeepsStackPaths(next, start, goal, stack, visited, newStack);
    ExpandKeepsCovered(next, start, goal, stack, visited, newStack);
    SameShapeInUniverse(start, top.0);
    if visited == {} {
      assert top == (start, [start]);
    }
  }

  /**
   * One iteration: a popped goal comes with a path; a popped visited
   * configuration is skipped; any other is visited and expanded.
   */
  lemma Pop(next: Graph, start: State, goal: State, stack: seq<Entry>, visited: set<State>)
    requires KeepsShape(next) && Invariant(next, start, goal, stack, visited) && stack != []
    ensures var top := stack[|stack| - 1];
      top.0 == goal ==> IsPath(next, top.1, start, goal) && |visited| + 1 <= |ReachableSet(next, start)|
    ensures var top := stack[|stack| - 1];
      top.0 != goal && top.0 in visited ==> Invariant(next, start, goal, stack[..|stack| - 1], visited)
    ensures var top := stack[|stack| - 1];
      var newStack := stack[..|stack| - 1] + Entries(Unvisited(Reversed(next(top.0)), visited + {top.0}), top.1);
      top.0 != goal && top.0 !in visited ==>
        Invariant(next, start, goal, newStack, visited + {top.0}) &&
        Universe(start) - (visited + {top.0}) < Universe(start) - visited &&
        |visited + {top.0}| == |visited| + 1
  {
    var top := stack[|stack| - 1];
    if top.0 == goal {
      assert IsPath(next, top.1, start, top.0);
      forall x | x in visited + {goal} ensures x in ReachableSet(next, start) {
        ReachableInSet(next, start, x);
      }
      SubsetCard(visited + {goal}, ReachableSet(next, start));
    } else if top.0 in visited {
      SkipKeepsInvariant(next, start, goal, stack, visited);
    } else {
      var newStack := stack[..|stack| - 1] + Entries(Unvisited(Reversed(next(top.0)), visited + {top.0}), top.1);
      ExpandKeepsInvariant(next, start, goal, stack, visited, newStack);
    }
  }

  /** When the stack runs dry, the visited configurations are exactly the reachable ones, and goal is not one. */
  lemma StackExhausted(next: Graph, start: State, goal: State, visited: set<State>)
    requires KeepsShape(next) && Invariant(next, start, goal, [], visited)
    ensures !Reachable(next, start, goal)
    ensures visited == ReachableSet(next, start)
  {
    assert Closed(next, visited);
    forall t | Reachable(next, start, t) ensures t in visited {
      var c :| IsPath(next, c, start, t);
      ClosedHoldsChainEnd(next, visited, c);
    }
    forall x | x in visited ensures x in ReachableSet(next, start) {
      ReachableInSet(next, start, x);
    }
  }

  /** Every visited configuration is reachable. */
  lemma VisitedReachable(next: Graph, start: State, goal: State, stack: seq<Entry>, visited: set<State>)
    requires KeepsShape(next) && Invariant(next, start, goal, stack, visited)
    ensures visited <= ReachableSet(next, start)
  {
    forall x | x in visited ensures x in ReachableSet(next, start) {
      ReachableInSet(next, start, x);
    }
  }
}
