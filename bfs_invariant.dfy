/**
 * The loop invariant of solve_with_bfs and the lemmas that carry it from one
 * iteration to the next, stated for any successor function.
 */
module BfsInvariant {
  import opened Moves
  import opened Paths
  import opened Frontier

  /**
   * The successors that get enqueued, in generator order: those not yet
   * visited, each only the first time it appears.
   */
  function NotYetSeen(succs: seq<State>, visited: set<State>): seq<State>
  {
    if succs == [] then []
    else if succs[0] in visited then NotYetSeen(succs[1..], visited)
    else [succs[0]] + NotYetSeen(succs[1..], visited + {succs[0]})
  }

  /**
   * The enqueued successors are exactly the unvisited ones, each once:
   * nothing visited, nothing missed, no repeats.
   */
  lemma {:induction false} NotYetSeenSpec(succs: seq<State>, visited: set<State>)
    ensures forall x :: x in NotYetSeen(succs, visited) ==> x in succs && x !in visited
    ensures forall x :: x in succs ==> x in visited || x in NotYetSeen(succs, visited)
    ensures forall i, j :: 0 <= i < j < |NotYetSeen(succs, visited)| ==>
      NotYetSeen(succs, visited)[i] != NotYetSeen(succs, visited)[j]
  {
    if succs != [] {
      var rest := succs[1..];
      if succs[0] in visited {
        NotYetSeenSpec(rest, visited);
      } else {
        NotYetSeenSpec(rest, visited + {succs[0]});
        var r := NotYetSeen(succs, visited);
        assert r == [succs[0]] + NotYetSeen(rest, visited + {succs[0]});
        forall x | x in succs ensures x in visited || x in r {
          if x != succs[0] {
            assert x in rest;
          }
        }
      }
    }
  }

  lemma NotYetSeenCons(x: State, rest: seq<State>, visited: set<State>)
    ensures NotYetSeen([x] + rest, visited)
         == if x in visited then NotYetSeen(rest, visited) else [x] + NotYetSeen(rest, visited + {x})
  {
    assert ([x] + rest)[1..] == rest;
  }

  /** No path from start to the last configuration of p is shorter than p. */
  ghost predicate Shortest(next: Graph, start: State, p: seq<State>)
  {
    |p| >= 1 && forall c :: IsPath(next, c, start, p[|p| - 1]) ==> |p| <= |c|
  }

  /** A queue entry holds a shortest path from start to its configuration. */
  ghost predicate EntryOk(next: Graph, start: State, e: Entry)
  {
    IsPath(next, e.1, start, e.0) && Shortest(next, start, e.1)
  }

  /** Path lengths along the queue never decrease and span at most two values. */
  predicate Layered(q: seq<Entry>)
  {
    forall i, j :: 0 <= i <= j < |q| ==> |q[i].1| <= |q[j].1| <= |q[i].1| + 1
  }

  predicate DistinctStates(q: seq<Entry>)
  {
    forall i, j :: 0 <= i < j < |q| ==> q[i].0 != q[j].0
  }

  /** Every path from start to a configuration outside visited is longer than bound. */
  ghost predicate FarOutside(next: Graph, start: State, visited: set<State>, bound: nat)
  {
    forall c :: IsChain(next, c) && c[0] == start && c[|c| - 1] !in visited ==> bound < |c|
  }

  /** A chain that starts inside a set and ends outside it leaves it at some step k. */
  lemma {:induction false} FirstExit(c: seq<State>, visited: set<State>) returns (k: nat)
    requires |c| >= 1 && c[0] in visited && c[|c| - 1] !in visited
    ensures 1 <= k < |c| && c[k - 1] in visited && c[k] !in visited
  {
    var n := |c| - 1;
    if c[n - 1] in visited {
      k := n;
    } else {
      k := FirstExit(c[..n], visited);
    }
  }

  /**
   * The breadth-first frontier property: when every configuration visited but
   * not expanded sits in the queue with a shortest path of at least bound
   * configurations, and expanded configurations have all their successors
   * visited, then every configuration not yet visited is farther than bound.
   */
  lemma FrontierBound(next: Graph, start: State, expanded: set<State>, queue: seq<Entry>,
                      visited: set<State>, bound: nat)
    requires visited == expanded + StatesOf(queue) && start in visited
    requires forall x, y :: x in expanded && y in next(x) ==> y in visited
    requires forall i :: 0 <= i < |queue| ==> EntryOk(next, start, queue[i]) && bound <= |queue[i].1|
    ensures FarOutside(next, start, visited, bound)
  {
    forall c | IsChain(next, c) && c[0] == start && c[|c| - 1] !in visited
      ensures bound < |c|
    {
      var k := FirstExit(c, visited);
      assert c[k] in next(c[k - 1]);
      var e :| e in queue && e.0 == c[k - 1];
      var i :| 0 <= i < |queue| && queue[i] == e;
      ChainSlice(next, c, 0, k);
      assert IsPath(next, c[..k], start, e.0);
    }
  }

  /**
   * What the sets of solve_with_bfs hold: visited is exactly the expanded
   * configurations (those already dequeued) plus the ones in the queue, each
   * queued once; all of them have start's stones; and start is the first
   * configuration expanded.
   */
  ghost predicate Bookkeeping(start: State, queue: seq<Entry>, visited: set<State>, expanded: set<State>)
  {
    (forall x :: x in visited ==> SameShape(start, x)) &&
    visited == expanded + StatesOf(queue) &&
    (forall i :: 0 <= i < |queue| ==> queue[i].0 !in expanded) &&
    DistinctStates(queue) &&
    (expanded == {} ==> queue == [(start, [start])]) &&
    (expanded != {} ==> start in expanded)
  }

  /** Every queue entry holds a shortest path, and the queue is layered by path length. */
  ghost predicate ShortestFirst(next: Graph, start: State, queue: seq<Entry>)
  {
    (forall i :: 0 <= i < |queue| ==> EntryOk(next, start, queue[i])) &&
    Layered(queue)
  }

  /**
   * What expanding has established: every successor of an expanded
   * configuration is visited, every expanded configuration is reachable, and
   * the goal has not been dequeued.
   */
  ghost predicate Explored(next: Graph, start: State, goal: State, visited: set<State>, expanded: set<State>)
  {
    (forall x, y :: x in expanded && y in next(x) ==> y in visited) &&
    (forall x :: x in expanded ==> Reachable(next, start, x)) &&
    goal !in expanded
  }

  /** The loop invariant of solve_with_bfs. */
  ghost predicate Invariant(next: Graph, start: State, goal: State, queue: seq<Entry>,
                            visited: set<State>, expanded: set<State>)
  {
    Bookkeeping(start, queue, visited, expanded) && ShortestFirst(next, start, queue) &&
    Explored(next, start, goal, visited, expanded)
  }

  lemma InitialInvariant(next: Graph, start: State, goal: State)
    ensures Invariant(next, start, goal, [(start, [start])], {start}, {})
  {
    var q: seq<Entry> := [(start, [start])];
    assert StatesOf(q) == {start} by {
      StatesOfIndex(q, 0);
    }
    assert EntryOk(next, start, q[0]);
  }

  /** After one expansion visited is still the expanded configurations plus the queued ones. */
  lemma ExpandKeepsVisited(queue: seq<Entry>, visited: set<State>, expanded: set<State>,
                           added: seq<State>, succs: seq<State>, newQueue: seq<Entry>, newVisited: set<State>)
    requires queue != [] && visited == expanded + StatesOf(queue)
    requires forall x :: x in added ==> x in succs
    requires forall x :: x in succs ==> x in visited || x in added
    requires newQueue == queue[1..] + Entries(added, queue[0].1)
    requires newVisited == visited + set s | s in succs
    ensures newVisited == expanded + {queue[0].0} + StatesOf(newQueue)
  {
    StatesOfAppend(queue[1..], Entries(added, queue[0].1));
    StatesOfEntries(added, queue[0].1);
    StatesOfFront(queue);
  }

  /** The configurations left in the queue differ from the front and are visited. */
  lemma RestOfQueue(queue: seq<Entry>, visited: set<State>, expanded: set<State>)
    requires queue != [] && visited == expanded + StatesOf(queue) && DistinctStates(queue)
    ensures forall i :: 0 <= i < |queue| - 1 ==> queue[1..][i].0 != queue[0].0 && queue[1..][i].0 in visited
  {
    forall i | 0 <= i < |queue| - 1 ensures queue[1..][i].0 != queue[0].0 && queue[1..][i].0 in visited {
      assert queue[1..][i] == queue[i + 1];
      StatesOfIndex(queue, i + 1);
    }
  }

  /** After one expansion no queued configuration is expanded. */
  lemma ExpandKeepsUnexpanded(queue: seq<Entry>, visited: set<State>, expanded: set<State>,
                              added: seq<State>, newQueue: seq<Entry>)
    requires queue != [] && visited == expanded + StatesOf(queue) && DistinctStates(queue)
    requires forall i :: 0 <= i < |queue| ==> queue[i].0 !in expanded
    requires forall x :: x in added ==> x !in visited
    requires newQueue == queue[1..] + Entries(added, queue[0].1)
    ensures forall i :: 0 <= i < |newQueue| ==> newQueue[i].0 !in expanded + {queue[0].0}
  {
    var rest, entries := queue[1..], Entries(added, queue[0].1);
    RestOfQueue(queue, visited, expanded);
    StatesOfIndex(queue, 0);
    forall i | 0 <= i < |newQueue| ensures newQueue[i].0 !in expanded + {queue[0].0} {
      if i < |rest| {
        assert newQueue[i] == queue[i + 1];
      } else {
        assert newQueue[i] == entries[i - |rest|];
      }
    }
  }

  /** After one expansion every configuration is still queued at most once. */
  lemma ExpandKeepsDistinct(queue: seq<Entry>, visited: set<State>, expanded: set<State>,
                            added: seq<State>, newQueue: seq<Entry>)
    requires queue != [] && visited == expanded + StatesOf(queue) && DistinctStates(queue)
    requires forall x :: x in added ==> x !in visited
    requires forall i, j :: 0 <= i < j < |added| ==> added[i] != added[j]
    requires newQueue == queue[1..] + Entries(added, queue[0].1)
    ensures DistinctStates(newQueue)
  {
    var rest, entries := queue[1..], Entries(added, queue[0].1);
    RestOfQueue(queue, visited, expanded);
    forall i, j | 0 <= i < j < |newQueue| ensures newQueue[i].0 != newQueue[j].0 {
      if j < |rest| {
        assert newQueue[i] == queue[i + 1] && newQueue[j] == queue[j + 1];
      } else if i >= |rest| {
        assert newQueue[i] == entries[i - |rest|] && newQueue[j] == entries[j - |rest|];
      } else {
        var x := added[j - |rest|];
        assert newQueue[j].0 == x && x in added;
        assert newQueue[i] == rest[i];
      }
    }
  }

  /** The new configurations have start's stones, like the one they come from. */
  lemma ExpandKeepsShape(next: Graph, start: State, queue: seq<Entry>, visited: set<State>, newVisited: set<State>)
    requires KeepsShape(next) && queue != []
    requires forall x :: x in visited ==> SameShape(start, x)
    requires queue[0].0 in visited
    requires newVisited == visited + set s | s in next(queue[0].0)
    ensures forall x :: x in newVisited ==> SameShape(start, x)
  {
    var current := queue[0].0;
    assert SameShape(start, current);
    forall x | x in newVisited ensures SameShape(start, x) {
      if x !in visited {
        assert SameShape(current, x);
      }
    }
  }

  /** Expanding the front of the queue keeps the bookkeeping. */
  lemma ExpandKeepsBookkeeping(next: Graph, start: State, queue: seq<Entry>, visited: set<State>,
                               expanded: set<State>, newQueue: seq<Entry>, newVisited: set<State>)
    requires KeepsShape(next) && queue != []
    requires Bookkeeping(start, queue, visited, expanded)
    requires newQueue == queue[1..] + Entries(NotYetSeen(next(queue[0].0), visited), queue[0].1)
    requires newVisited == visited + set s | s in next(queue[0].0)
    ensures Bookkeeping(start, newQueue, newVisited, expanded + {queue[0].0})
  {
    var succs := next(queue[0].0);
    var added := NotYetSeen(succs, visited);
    NotYetSeenSpec(succs, visited);
    StatesOfIndex(queue, 0);
    ExpandKeepsVisited(queue, visited, expanded, added, succs, newQueue, newVisited);
    ExpandKeepsUnexpanded(queue, visited, expanded, added, newQueue);
    ExpandKeepsDistinct(queue, visited, expanded, added, newQueue);
    ExpandKeepsShape(next, start, queue, visited, newVisited);
  }

  /**
   * The new entries extend a path to the front configuration by one
   * configuration that was farther away than that path is long, so each is a
   * shortest path too.
   */
  lemma NewEntriesShortest(next: Graph, start: State, current: State, path: seq<State>,
                           visited: set<State>, added: seq<State>)
    requires IsPath(next, path, start, current)
    requires FarOutside(next, start, visited, |path|)
    requires forall x :: x in added ==> x in next(current) && x !in visited
    ensures forall k :: 0 <= k < |added| ==> EntryOk(next, start, Entries(added, path)[k])
  {
    forall k | 0 <= k < |added| ensures EntryOk(next, start, Entries(added, path)[k]) {
      var s := added[k];
      assert Entries(added, path)[k] == (s, path + [s]);
      ChainExtend(next, path, s);
    }
  }

  /** Dropping the front and appending new entries keeps every entry a shortest path. */
  lemma ExpandKeepsEntries(next: Graph, start: State, queue: seq<Entry>, added: seq<State>, newQueue: seq<Entry>)
    requires queue != []
    requires forall i :: 0 <= i < |queue| ==> EntryOk(next, start, queue[i])
    requires forall k :: 0 <= k < |added| ==> EntryOk(next, start, Entries(added, queue[0].1)[k])
    requires newQueue == queue[1..] + Entries(added, queue[0].1)
    ensures forall i :: 0 <= i < |newQueue| ==> EntryOk(next, start, newQueue[i])
  {
    var rest, entries := queue[1..], Entries(added, queue[0].1);
    forall i | 0 <= i < |newQueue| ensures EntryOk(next, start, newQueue[i]) {
      if i < |rest| {
        assert newQueue[i] == queue[i + 1];
      } else {
        assert newQueue[i] == entries[i - |rest|];
      }
    }
  }

  /** Entries one configuration longer than the front go to the back of a layered queue. */
  lemma ExpandKeepsLayered(queue: seq<Entry>, added: seq<State>, newQueue: seq<Entry>)
    requires queue != [] && Layered(queue)
    requires newQueue == queue[1..] + Entries(added, queue[0].1)
    ensures Layered(newQueue)
  {
    var bound, rest, entries := |queue[0].1|, queue[1..], Entries(added, queue[0].1);
    forall i | 0 <= i < |newQueue| ensures bound <= |newQueue[i].1| <= bound + 1 {
      if i < |rest| {
        assert newQueue[i] == queue[i + 1];
        assert |queue[0].1| <= |queue[i + 1].1| <= |queue[0].1| + 1;
      } else {
        assert newQueue[i] == entries[i - |rest|];
      }
    }
    forall i, j | 0 <= i <= j < |newQueue|
      ensures |newQueue[i].1| <= |newQueue[j].1| <= |newQueue[i].1| + 1
    {
      if j < |rest| {
        assert newQueue[i] == queue[i + 1] && newQueue[j] == queue[j + 1];
      }
    }
  }

  /** Expanding the front of the queue keeps every entry a shortest path and the queue layered. */
  lemma ExpandKeepsShortestFirst(next: Graph, start: State, queue: seq<Entry>, visited: set<State>,
                                 expanded: set<State>, newQueue: seq<Entry>)
    requires queue != [] && start in visited
    requires visited == expanded + StatesOf(queue)
    requires forall x, y :: x in expanded && y in next(x) ==> y in visited
    requires ShortestFirst(next, start, queue)
    requires newQueue == queue[1..] + Entries(NotYetSeen(next(queue[0].0), visited), queue[0].1)
    ensures ShortestFirst(next, start, newQueue)
  {
    var current, path := queue[0].0, queue[0].1;
    var added := NotYetSeen(next(current), visited);
    NotYetSeenSpec(next(current), visited);
    forall i | 0 <= i < |queue| ensures |path| <= |queue[i].1| {
      assert |queue[0].1| <= |queue[i].1|;
    }
    FrontierBound(next, start, expanded, queue, visited, |path|);
    assert EntryOk(next, start, queue[0]);
    NewEntriesShortest(next, start, current, path, visited, added);
    ExpandKeepsEntries(next, start, queue, added, newQueue);
    ExpandKeepsLayered(queue, added, newQueue);
  }

  /** Expanding the front of the queue visits its successors and keeps everything expanded reachable. */
  lemma ExpandKeepsExplored(next: Graph, start: State, goal: State, queue: seq<Entry>, visited: set<State>,
                            expanded: set<State>, newVisited: set<State>)
    requires queue != [] && queue[0].0 != goal && EntryOk(next, start, queue[0])
    requires Explored(next, start, goal, visited, expanded)
    requires newVisited == visited + set s | s in next(queue[0].0)
    ensures Explored(next, start, goal, newVisited, expanded + {queue[0].0})
  {
    var current := queue[0].0;
    forall x, y | x in expanded + {current} && y in next(x) ensures y in newVisited {
    }
    assert Reachable(next, start, current) by {
      assert IsPath(next, queue[0].1, start, current);
    }
  }

  /** Expanding either visits a new configuration of start's shape or shortens the queue. */
  lemma ExpandShrinks(next: Graph, start: State, queue: seq<Entry>, visited: set<State>,
                      newQueue: seq<Entry>, newVisited: set<State>)
    requires KeepsShape(next) && queue != []
    requires forall x :: x in visited ==> SameShape(start, x)
    requires queue[0].0 in visited
    requires newQueue == queue[1..] + Entries(NotYetSeen(next(queue[0].0), visited), queue[0].1)
    requires newVisited == visited + set s | s in next(queue[0].0)
    ensures Universe(start) - newVisited < Universe(start) - visited ||
            (newVisited == visited && |newQueue| < |queue|)
  {
    var current := queue[0].0;
    var added := NotYetSeen(next(current), visited);
    NotYetSeenSpec(next(current), visited);
    if added != [] {
      var s := added[0];
      assert SameShape(start, current) && SameShape(current, s);
      SameShapeInUniverse(start, s);
      assert s in Universe(start) - visited && s !in Universe(start) - newVisited;
    } else {
      assert newVisited == visited;
    }
  }

  /** Dequeuing the front configuration and enqueuing its unvisited successors keeps the invariant. */
  lemma ExpandKeepsInvariant(next: Graph, start: State, goal: State, queue: seq<Entry>, visited: set<State>,
                             expanded: set<State>, newQueue: seq<Entry>, newVisited: set<State>)
    requires KeepsShape(next)
    requires Invariant(next, start, goal, queue, visited, expanded)
    requires queue != [] && queue[0].0 != goal
    requires newQueue == queue[1..] + Entries(NotYetSeen(next(queue[0].0), visited), queue[0].1)
    requires newVisited == visited + set s | s in next(queue[0].0)
    ensures Invariant(next, start, goal, newQueue, newVisited, expanded + {queue[0].0})
    ensures queue[0].0 !in expanded
    ensures Universe(start) - newVisited < Universe(start) - visited ||
            (newVisited == visited && |newQueue| < |queue|)
  {
    StatesOfIndex(queue, 0);
    StartVisited(start, queue, visited, expanded);
    ExpandKeepsBookkeeping(next, start, queue, visited, expanded, newQueue, newVisited);
    ExpandKeepsShortestFirst(next, start, queue, visited, expanded, newQueue);
    ExpandKeepsExplored(next, start, goal, queue, visited, expanded, newVisited);
    ExpandShrinks(next, start, queue, visited, newQueue, newVisited);
  }

  /** start is visited from the beginning. */
  lemma StartVisited(start: State, queue: seq<Entry>, visited: set<State>, expanded: set<State>)
    requires Bookkeeping(start, queue, visited, expanded)
    ensures start in visited
  {
    if expanded == {} {
      StatesOfIndex(queue, 0);
    }
  }

  /** The dequeued goal comes with a shortest path, after at most every reachable configuration. */
  lemma GoalReached(next: Graph, start: State, goal: State, queue: seq<Entry>, visited: set<State>, expanded: set<State>)
    requires KeepsShape(next)
    requires Invariant(next, start, goal, queue, visited, expanded) && queue != [] && queue[0].0 == goal
    ensures IsPath(next, queue[0].1, start, goal)
    ensures forall c :: IsPath(next, c, start, goal) ==> |queue[0].1| <= |c|
    ensures |expanded| + 1 <= |ReachableSet(next, start)|
  {
    assert EntryOk(next, start, queue[0]);
    assert Reachable(next, start, goal);
    forall x | x in expanded + {goal} ensures x in ReachableSet(next, start) {
      ReachableInSet(next, start, x);
    }
    SubsetCard(expanded + {goal}, ReachableSet(next, start));
  }

  /** When the queue runs dry, exactly the reachable configurations were expanded, and goal is not one. */
  lemma QueueExhausted(next: Graph, start: State, goal: State, visited: set<State>, expanded: set<State>)
    requires KeepsShape(next)
    requires Invariant(next, start, goal, [], visited, expanded)
    ensures !Reachable(next, start, goal)
    ensures expanded == ReachableSet(next, start)
  {
    assert visited == expanded;
    assert Closed(next, expanded);
    forall t | Reachable(next, start, t) ensures t in expanded {
      var c :| IsPath(next, c, start, t);
      ClosedHoldsChainEnd(next, expanded, c);
    }
    forall x | x in expanded ensures x in ReachableSet(next, start) {
      ReachableInSet(next, start, x);
    }
  }

  /** One iteration: either the front is the goal, or expanding it keeps the invariant. */
  lemma Dequeue(next: Graph, start: State, goal: State, queue: seq<Entry>, visited: set<State>, expanded: set<State>)
    requires KeepsShape(next)
    requires Invariant(next, start, goal, queue, visited, expanded) && queue != []
    ensures queue[0].0 == goal ==>
      IsPath(next, queue[0].1, start, goal) &&
      (forall c :: IsPath(next, c, start, goal) ==> |queue[0].1| <= |c|) &&
      |expanded| + 1 <= |ReachableSet(next, start)|
    ensures queue[0].0 != goal ==>
      var newQueue := queue[1..] + Entries(NotYetSeen(next(queue[0].0), visited), queue[0].1);
      var newVisited := visited + set s | s in next(queue[0].0);
      Invariant(next, start, goal, newQueue, newVisited, expanded + {queue[0].0}) &&
      |expanded + {queue[0].0}| == |expanded| + 1 &&
      (Universe(start) - newVisited < Universe(start) - visited ||
       (newVisited == visited && |newQueue| < |queue|))
  {
    if queue[0].0 == goal {
      GoalReached(next, start, goal, queue, visited, expanded);
    } else {
      var newQueue := queue[1..] + Entries(NotYetSeen(next(queue[0].0), visited), queue[0].1);
      var newVisited := visited + set s | s in next(queue[0].0);
      ExpandKeepsInvariant(next, start, goal, queue, visited, expanded, newQueue, newVisited);
    }
  }

  /** Every expanded configuration is reachable. */
  lemma ExpandedReachable(next: Graph, start: State, goal: State, queue: seq<Entry>,
                          visited: set<State>, expanded: set<State>)
    requires KeepsShape(next) && Invariant(next, start, goal, queue, visited, expanded)
    ensures expanded <= ReachableSet(next, start)
  {
    forall x | x in expanded ensures x in ReachableSet(next, start) {
      ReachableInSet(next, start, x);
    }
  }

  /** The queue holds distinct reachable configurations, so it is never longer than there are of them. */
  lemma QueueBound(next: Graph, start: State, goal: State, queue: seq<Entry>,
                   visited: set<State>, expanded: set<State>)
    requires KeepsShape(next) && Invariant(next, start, goal, queue, visited, expanded)
    ensures |queue| <= |ReachableSet(next, start)|
  {
    var states := seq(|queue|, i requires 0 <= i < |queue| => queue[i].0);
    forall i | 0 <= i < |states| ensures states[i] in ReachableSet(next, start) {
      assert EntryOk(next, start, queue[i]);
      ReachableInSet(next, start, states[i]);
    }
    DistinctCard(states, ReachableSet(next, start));
  }
}
