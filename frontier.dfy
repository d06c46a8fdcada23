/**
 * The frontier entries shared by both searches: a configuration paired with
 * the path that reached it.
 */
module Frontier {
  import opened Moves
  import opened Paths

  type Entry = (State, seq<State>)

  /** The entries (s, path + [s]) queued or pushed for the new configurations, in order. */
  function Entries(added: seq<State>, path: seq<State>): (r: seq<Entry>)
  {
    seq(|added|, k requires 0 <= k < |added| => (added[k], path + [added[k]]))
  }

  lemma EntriesCons(x: State, rest: seq<State>, path: seq<State>)
    ensures Entries([x] + rest, path) == [(x, path + [x])] + Entries(rest, path)
  {
    var a, b := Entries([x] + rest, path), [(x, path + [x])] + Entries(rest, path);
    assert |a| == |b|;
    forall k | 0 <= k < |a| ensures a[k] == b[k] {
      if k > 0 {
        assert ([x] + rest)[k] == rest[k - 1];
      }
    }
  }

  lemma EntriesSnoc(rest: seq<State>, x: State, path: seq<State>)
    ensures Entries(rest + [x], path) == Entries(rest, path) + [(x, path + [x])]
  {
    var a, b := Entries(rest + [x], path), Entries(rest, path) + [(x, path + [x])];
    assert |a| == |b|;
    forall k | 0 <= k < |a| ensures a[k] == b[k] {
      if k < |rest| {
        assert (rest + [x])[k] == rest[k];
      }
    }
  }

  /** The configurations held by a frontier. */
  function StatesOf(q: seq<Entry>): set<State>
  {
    set e | e in q :: e.0
  }

  lemma StatesOfAppend(a: seq<Entry>, b: seq<Entry>)
    ensures StatesOf(a + b) == StatesOf(a) + StatesOf(b)
  {
    forall x | x in StatesOf(a + b) ensures x in StatesOf(a) + StatesOf(b) {
      var e :| e in a + b && e.0 == x;
    }
    forall x | x in StatesOf(a) + StatesOf(b) ensures x in StatesOf(a + b) {
      if x in StatesOf(a) {
        var e :| e in a && e.0 == x;
        assert e in a + b;
      } else {
        var e :| e in b && e.0 == x;
        assert e in a + b;
      }
    }
  }

  lemma StatesOfEntries(added: seq<State>, path: seq<State>)
    ensures StatesOf(Entries(added, path)) == set s | s in added
  {
    var r := Entries(added, path);
    forall x | x in added ensures x in StatesOf(r) {
      var k :| 0 <= k < |added| && added[k] == x;
      assert r[k] in r;
    }
  }

  lemma StatesOfIndex(q: seq<Entry>, i: nat)
    requires i < |q|
    ensures q[i].0 in StatesOf(q)
  {
    assert q[i] in q;
  }

  lemma StatesOfFront(q: seq<Entry>)
    requires q != []
    ensures StatesOf(q) == {q[0].0} + StatesOf(q[1..])
  {
    assert q == [q[0]] + q[1..];
    StatesOfAppend([q[0]], q[1..]);
    StatesOfIndex([q[0]], 0);
  }

  lemma StatesOfLast(q: seq<Entry>)
    requires q != []
    ensures StatesOf(q) == StatesOf(q[..|q| - 1]) + {q[|q| - 1].0}
  {
    var n := |q| - 1;
    assert q == q[..n] + [q[n]];
    StatesOfAppend(q[..n], [q[n]]);
    StatesOfIndex([q[n]], 0);
  }

  /**
   * The entry's path ends at its configuration, and every configuration on it
   * before that is in done: the path was built one expansion at a time.
   */
  predicate Behind(e: Entry, done: set<State>)
  {
    |e.1| >= 1 && e.1[|e.1| - 1] == e.0 && forall k :: 0 <= k < |e.1| - 1 ==> e.1[k] in done
  }

  predicate AllBehind(q: seq<Entry>, done: set<State>)
  {
    forall i :: 0 <= i < |q| ==> Behind(q[i], done)
  }

  /**
   * Expanding the entry front out of a frontier: the other entries, and those
   * added for front's successors, are behind done plus front's configuration.
   */
  lemma ExpandKeepsBehind(rest: seq<Entry>, front: Entry, added: seq<State>, done: set<State>)
    requires AllBehind(rest, done) && Behind(front, done)
    ensures AllBehind(rest + Entries(added, front.1), done + {front.0})
  {
    var q := rest + Entries(added, front.1);
    var more := done + {front.0};
    forall i | 0 <= i < |q| ensures Behind(q[i], more) {
      if i >= |rest| {
        var p := front.1 + [added[i - |rest|]];
        assert q[i] == (added[i - |rest|], p);
        forall k | 0 <= k < |p| - 1 ensures p[k] in more {
          assert p[k] == front.1[k];
        }
      }
    }
  }

  /** The front of a queue is behind done, and so is the rest of it. */
  lemma FrontBehind(q: seq<Entry>, done: set<State>)
    requires AllBehind(q, done) && q != []
    ensures Behind(q[0], done) && AllBehind(q[1..], done)
  {
    forall i | 0 <= i < |q| - 1 ensures Behind(q[1..][i], done) {
      assert q[1..][i] == q[i + 1];
    }
  }

  /** The top of a stack is behind done, and so is the rest of it. */
  lemma TopBehind(q: seq<Entry>, done: set<State>)
    requires AllBehind(q, done) && q != []
    ensures Behind(q[|q| - 1], done) && AllBehind(q[..|q| - 1], done)
  {
  }

  /**
   * A path of the puzzle repeats no configuration, so when all of it but its
   * last configuration is in done it is at most one longer than done is large.
   */
  lemma BehindLength(e: Entry, done: set<State>)
    requires Behind(e, done) && IsChain(Next, e.1)
    ensures |e.1| <= |done| + 1
  {
    var p := e.1[..|e.1| - 1];
    ChainIsSimple(e.1);
    assert forall i, j :: 0 <= i < j < |p| ==> p[i] != p[j];
    DistinctCard(p, done);
  }
}
