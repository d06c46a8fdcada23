/**
 * Chains of moves, reachability and the finite space of configurations the
 * searches in rabbit_leap.py walk through.
 *
 * The graph facts are stated for any successor function next (the searches
 * only ever ask a configuration for its successors); Next is the puzzle's.
 */
module Paths {
  import opened Moves

  /** A successor function: the configurations one move away, in order. */
  type Graph = State -> seq<State>

  /**
   * The puzzle's successor function, which the searches use: get_successors
   * on a configuration with an empty stone, and no move at all on one
   * without (where get_successors as written produces StrayMoves).  Moves
   * only swap stones, so from a start with an empty stone the two never
   * differ along a search.
   */
  function Next(s: State): seq<State>
  {
    if '_' in s then Successors(s) else []
  }

  /** Next gives only legal moves, on any string. */
  lemma NextIsLegal(s: State, t: State)
    requires t in Next(s)
    ensures LegalMove(s, t)
  {
    SuccessorIsLegal(s, t);
  }

  /** Next and get_successors as written agree wherever there is an empty stone. */
  lemma NextAgreesWithBlank(s: State)
    requires '_' in s
    ensures Next(s) == SuccessorsAsWritten(s)
  {
  }

  /**
   * Without an empty stone there is no legal move at all, so nothing
   * get_successors as written produces there (StrayMoves) is one.
   */
  lemma NoLegalMoveWithoutBlank(s: State, t: State)
    requires '_' !in s
    ensures !LegalMove(s, t)
  {
    forall i: nat, j: nat | i < |s| && j < |s|
      ensures !Leap(s, i, j)
    {
      assert s[j] != '_';
    }
  }

  /** A two-stone instance: "WE" has no legal move, yet the code as written turns it into "EW". */
  lemma StraySuccessorExample()
    ensures SuccessorsAsWritten("WE") == ["EW"]
    ensures !LegalMove("WE", "EW")
    ensures Next("WE") == []
  {
    var s: State := "WE";
    assert s[0] == 'W' && s[1] == 'E';
    assert Swap(s, 1, 0) == "EW";
    NoLegalMoveWithoutBlank(s, "EW");
  }

  /** A non-empty list of configurations, each a successor of the one before. */
  predicate IsChain(next: Graph, p: seq<State>)
  {
    |p| >= 1 && forall i :: 0 <= i < |p| - 1 ==> p[i + 1] in next(p[i])
  }

  /** A chain from one configuration to another: what the searches return. */
  predicate IsPath(next: Graph, p: seq<State>, from: State, to: State)
  {
    IsChain(next, p) && p[0] == from && p[|p| - 1] == to
  }

  ghost predicate Reachable(next: Graph, from: State, to: State)
  {
    exists p :: IsPath(next, p, from, to)
  }

  /** Same length and same stones. */
  predicate SameShape(s: State, t: State)
  {
    |t| == |s| && multiset(t) == multiset(s)
  }

  /** Successors are rearrangements of the configuration they come from. */
  ghost predicate KeepsShape(next: Graph)
  {
    forall x, y :: y in next(x) ==> SameShape(x, y)
  }

  lemma NextKeepsShape()
    ensures KeepsShape(Next)
  {
    forall x, y | y in Next(x) ensures SameShape(x, y) {
    }
  }

  lemma ChainExtend(next: Graph, p: seq<State>, t: State)
    requires IsChain(next, p) && t in next(p[|p| - 1])
    ensures IsChain(next, p + [t])
  {
    var q := p + [t];
    forall i | 0 <= i < |q| - 1 ensures q[i + 1] in next(q[i]) {
      if i < |p| - 1 {
        assert q[i] == p[i] && q[i + 1] == p[i + 1];
      }
    }
  }

  lemma ChainSlice(next: Graph, p: seq<State>, i: nat, j: nat)
    requires IsChain(next, p) && i < j <= |p|
    ensures IsChain(next, p[i..j])
  {
    var q := p[i..j];
    forall k | 0 <= k < |q| - 1 ensures q[k + 1] in next(q[k]) {
      assert q[k] == p[i + k] && q[k + 1] == p[i + k + 1];
    }
  }

  /** When moves only swap stones, every configuration of a chain has the shape of its first. */
  lemma {:induction false} ChainKeepsShape(next: Graph, p: seq<State>)
    requires KeepsShape(next) && IsChain(next, p)
    ensures forall k :: 0 <= k < |p| ==> SameShape(p[0], p[k])
  {
    if |p| > 1 {
      var n := |p| - 1;
      ChainSlice(next, p, 0, n);
      ChainKeepsShape(next, p[..n]);
      assert SameShape(p[0], p[n - 1]);
      assert p[n] in next(p[n - 1]);
    }
  }

  /** The measure grows by at least one per move along a chain of the puzzle. */
  lemma {:induction false} ChainProgress(p: seq<State>, i: nat, j: nat)
    requires IsChain(Next, p) && i <= j < |p|
    ensures Progress(p[j]) >= Progress(p[i]) + (j - i)
  {
    if i < j {
      ChainProgress(p, i, j - 1);
      assert p[j] in Next(p[j - 1]);
      MoveProgress(p[j - 1], p[j]);
    }
  }

  /** The puzzle's move graph has no cycle: no configuration occurs twice on a chain. */
  lemma ChainIsSimple(p: seq<State>)
    requires IsChain(Next, p)
    ensures forall i, j :: 0 <= i < j < |p| ==> p[i] != p[j]
  {
    forall i, j | 0 <= i < j < |p| ensures p[i] != p[j] {
      ChainProgress(p, i, j);
    }
  }

  /** A set is closed when it holds every successor of each of its members. */
  ghost predicate Closed(next: Graph, visited: set<State>)
  {
    forall x, y :: x in visited && y in next(x) ==> y in visited
  }

  /** A closed set that holds the start of a chain holds its end. */
  lemma {:induction false} ClosedHoldsChainEnd(next: Graph, visited: set<State>, p: seq<State>)
    requires Closed(next, visited) && IsChain(next, p) && p[0] in visited
    ensures p[|p| - 1] in visited
  {
    var n := |p| - 1;
    if n > 0 {
      ChainSlice(next, p, 0, n);
      ClosedHoldsChainEnd(next, visited, p[..n]);
      assert p[n] in next(p[n - 1]);
    }
  }

  function Alphabet(s: State): set<char>
  {
    set c | c in s
  }

  /** All words of length n over the alphabet a. */
  ghost function Words(a: set<char>, n: nat): set<State>
  {
    if n == 0 then {[]}
    else set w, c | w in Words(a, n - 1) && c in a :: w + [c]
  }

  lemma {:induction false} WordsComplete(a: set<char>, t: State)
    requires forall i :: 0 <= i < |t| ==> t[i] in a
    ensures t in Words(a, |t|)
  {
    if t != [] {
      var n := |t| - 1;
      WordsComplete(a, t[..n]);
      assert t == t[..n] + [t[n]];
    }
  }

  /** A finite set that holds every configuration of the same shape as start. */
  ghost function Universe(start: State): set<State>
  {
    Words(Alphabet(start), |start|)
  }

  lemma SameShapeInUniverse(start: State, t: State)
    requires SameShape(start, t)
    ensures t in Universe(start)
  {
    forall i | 0 <= i < |t| ensures t[i] in Alphabet(start) {
      assert t[i] in multiset(t);
    }
    WordsComplete(Alphabet(start), t);
  }

  /** Every configuration reachable from start. */
  ghost function ReachableSet(next: Graph, start: State): set<State>
  {
    set t | t in Universe(start) && Reachable(next, start, t)
  }

  /** Reachable configurations have start's shape, so they all lie in the finite universe. */
  lemma ReachableInSet(next: Graph, start: State, t: State)
    requires KeepsShape(next) && Reachable(next, start, t)
    ensures t in ReachableSet(next, start) && SameShape(start, t)
  {
    var p :| IsPath(next, p, start, t);
    ChainKeepsShape(next, p);
    SameShapeInUniverse(start, t);
  }

  /** Cardinality grows with inclusion. */
  lemma {:induction false} SubsetCard(a: set<State>, b: set<State>)
    requires a <= b
    ensures |a| <= |b|
  {
    if a != {} {
      var x :| x in a;
      SubsetCard(a - {x}, b - {x});
    }
  }

  /**
   * From a start with an empty stone, Next and get_successors as written agree
   * on every configuration a search can meet.
   */
  lemma AgreesFromBlankStart(start: State, x: State)
    requires '_' in start && Reachable(Next, start, x)
    ensures Next(x) == SuccessorsAsWritten(x)
  {
    NextKeepsShape();
    ReachableInSet(Next, start, x);
    assert '_' in multiset(start);
    NextAgreesWithBlank(x);
  }

  /** A list without repeats, all of whose members lie in a, is no longer than a has members. */
  lemma {:induction false} DistinctCard(p: seq<State>, a: set<State>)
    requires forall i, j :: 0 <= i < j < |p| ==> p[i] != p[j]
    requires forall i :: 0 <= i < |p| ==> p[i] in a
    ensures |p| <= |a|
  {
    if p != [] {
      var rest := p[1..];
      forall i | 0 <= i < |rest|
        ensures rest[i] in a - {p[0]}
      {
        assert rest[i] == p[i + 1];
      }
      DistinctCard(rest, a - {p[0]});
      assert a == (a - {p[0]}) + {p[0]};
    }
  }
}
